/** The controller's CoapPDU: a message edited in place in one byte buffer.

    `added` is the abstract value while a message is being built: the options in message order.
    `Building` ties it to the buffer and to the fields; every method that edits the buffer says
    what becomes of it. `Realloc` stands for realloc: an array with the old prefix and arbitrary
    bytes behind it, at the old address or at any other one. */
module CoapPdu {
  import opened OptionFormat
  import opened OptionOrder
  import opened OptionSlot
  import opened OptionRead
  import opened BuildImage
  import opened PduWalk
  import opened UriText

  const HDR: nat := 4

  /** An address: a place in the block of memory that starts at `block`. */
  datatype Pointer = Pointer(block: nat, offset: nat)

  class CoapPDU {
    var pdu: array<Byte>
    var block: nat  // the address of pdu
    var pduLength: nat
    var bufferLength: nat
    const constructedFromBuffer: bool
    var payloadPointer: Option<Pointer>
    var payloadLength: nat
    var numOptions: nat
    var maxAddedOptionNumber: nat

    ghost var added: seq<Opt>

    ghost predicate Valid()
      reads this, pdu
    {
      HDR <= pduLength <= bufferLength <= pdu.Length
    }

    function TokenLength(): (t: nat)
      reads this, pdu
      requires Valid()
    {
      pdu[0] % 16
    }

    /** Where the options start. */
    ghost function Start(): nat
      reads this, pdu
      requires Valid()
    {
      HDR + TokenLength()
    }

    ghost predicate OptionsAre(opts: seq<Opt>)
      reads this, pdu
    {
      && Valid() && Small(0, opts) && Encodable(0, opts)
      && Start() <= pduLength
      && pdu[Start()..pduLength] == EncodeAll(0, opts)
    }

    /** A message under construction: no payload yet, and the options in the buffer are `added`. */
    ghost predicate Building()
      reads this, pdu
    {
      && OptionsAre(added)
      && payloadPointer == None && payloadLength == 0
      && maxAddedOptionNumber == LastNumber(0, added)
    }

    /** Under construction, but perhaps with a refused option counted as the last one. */
    ghost predicate Counted()
      reads this, pdu
    {
      && OptionsAre(added)
      && payloadPointer == None && payloadLength == 0
      && LastNumber(0, added) <= maxAddedOptionNumber
    }

    /** The number that an appended option really gets: the code takes its delta from the last number tried. */
    ghost function Appending(optionNumber: nat): nat
      reads this
      requires maxAddedOptionNumber <= optionNumber
    {
      LastNumber(0, added) + (optionNumber - maxAddedOptionNumber)
    }

    lemma BuildingCounts()
      requires Building()
      ensures Counted() && maxAddedOptionNumber == LastNumber(0, added)
    {
      hide Small, Encodable, LastNumber, EncodeAll;
    }

    lemma BuildingIsValid()
      requires Building()
      ensures Valid() && Start() <= pduLength
    {
    }

    /** The constructor that owns its memory: 500 zeroed bytes, version 1. */
    constructor ()
      ensures Building() && added == [] && !constructedFromBuffer
      ensures fresh(pdu) && pduLength == HDR && pdu[..HDR] == [0x40, 0, 0, 0]
    {
      pdu, block := new Byte[500](_ => 0), *;
      pduLength, bufferLength, constructedFromBuffer := HDR, HDR, false;
      payloadPointer, payloadLength, numOptions, maxAddedOptionNumber := None, 0, 0, 0;
      added := [];
      new;
      pdu[0] := 0x40;
    }

    /** The constructor over an external buffer, which may already hold a message. */
    constructor FromBuffer(buffer: array<Byte>, length: nat)
      requires HDR <= buffer.Length
      requires length == 0 || HDR <= length <= buffer.Length
      modifies buffer
      ensures Valid() && pdu == buffer && bufferLength == buffer.Length && constructedFromBuffer
      ensures length == 0 ==> Building() && added == [] && pduLength == HDR
      ensures length != 0 ==> pduLength == length && buffer[..] == old(buffer[..])
    {
      pdu, block := buffer, *;
      bufferLength, constructedFromBuffer := buffer.Length, true;
      pduLength := if length == 0 then HDR else length;
      payloadPointer, payloadLength, numOptions, maxAddedOptionNumber := None, 0, 0, 0;
      added := [];
      new;
      if length == 0 {
        pdu[0], pdu[1], pdu[2], pdu[3] := 0x40, 0, 0, 0;
      }
    }

    method Realloc(newLength: nat)
      requires Valid()
      modifies this`pdu, this`block, this`bufferLength
      ensures fresh(pdu) && pdu.Length == bufferLength == newLength
      ensures pdu[..if pduLength < newLength then pduLength else newLength]
              == old(pdu[..if pduLength < newLength then pduLength else newLength])
    {
      var kept := if pduLength < newLength then pduLength else newLength;
      var memory := new Byte[newLength];
      forall i | 0 <= i < kept {
        memory[i] := pdu[i];
      }
      assert memory[..kept] == pdu[..kept];
      pdu, block, bufferLength := memory, *, newLength;
    }

    /** Room for a longer message: own memory is reallocated, an external buffer is checked. */
    method Grow(newLength: nat) returns (ok: bool)
      requires Valid() && pduLength <= newLength
      modifies this`pdu, this`block, this`bufferLength, this`pduLength
      ensures ok == (!constructedFromBuffer || newLength <= old(bufferLength))
      ensures Valid() && pduLength == (if ok then newLength else old(pduLength))
      ensures pdu[..old(pduLength)] == old(pdu[..pduLength])
      ensures fresh(pdu) || (pdu == old(pdu) && bufferLength == old(bufferLength))
      ensures ok || pdu == old(pdu)
      ensures constructedFromBuffer || !ok ==> block == old(block) && bufferLength == old(bufferLength)
    {
      if !constructedFromBuffer {
        Realloc(newLength);
        pduLength := newLength;
        return true;
      }
      if newLength > bufferLength {
        return false;
      }
      pduLength := newLength;
      return true;
    }

    /** Moves `shiftAmount` bytes, the last of which lies `shiftOffset` before the end, to the end. */
    method ShiftPDUUp(shiftOffset: nat, shiftAmount: nat)
      requires shiftOffset + shiftAmount <= pduLength <= pdu.Length
      modifies pdu
      ensures pdu[..] == Moved(old(pdu[..]), pduLength - shiftAmount - shiftOffset, pduLength - shiftAmount,
              shiftAmount)
    {
      hide *;
      ghost var was, end := pdu[..], pduLength;
      var moved := 0;
      MoveNone(was, end - shiftOffset, end);
      while moved < shiftAmount
        invariant moved <= shiftAmount
        invariant pdu[..] == Moved(was, end - moved - shiftOffset, end - moved, moved)
      {
        ShiftByte(pduLength - 1 - moved, pduLength - 1 - moved - shiftOffset);
        MoveOneUp(was, end - moved - shiftOffset, end - moved, moved);
        moved := moved + 1;
      }
    }

    /** Moves the block that starts `shiftOffset` behind `startLocation` down to it. */
    method ShiftPDUDown(startLocation: nat, shiftOffset: nat, shiftAmount: nat)
      requires startLocation + shiftOffset + shiftAmount <= pdu.Length
      modifies pdu
      ensures pdu[..] == Moved(old(pdu[..]), startLocation + shiftOffset, startLocation, shiftAmount)
    {
      hide *;
      ghost var was := pdu[..];
      var moved := 0;
      MoveNone(was, startLocation + shiftOffset, startLocation);
      while moved < shiftAmount
        invariant moved <= shiftAmount
        invariant pdu[..] == Moved(was, startLocation + shiftOffset, startLocation, moved)
      {
        ShiftByte(startLocation + moved, startLocation + moved + shiftOffset);
        MoveOneDown(was, startLocation + shiftOffset, startLocation, moved);
        moved := moved + 1;
      }
    }

    method ShiftByte(to: nat, from: nat)
      requires to < pdu.Length && from < pdu.Length
      modifies pdu
      ensures pdu[..] == old(pdu[..])[to := old(pdu[..])[from]]
    {
      pdu[to] := pdu[from];
    }

    /** Sets the delta bytes of the option at `optionPosition`; space has been made for them.
        The wide branch stores its two bytes at the header byte itself. */
    method SetOptionDelta(optionPosition: nat, optionDelta: nat)
      requires optionDelta < WORD && optionPosition + 1 + Extra(optionDelta) <= pdu.Length
      modifies pdu
      ensures pdu[..] == Overwrite(old(pdu[..]), optionPosition,
                                   if optionDelta < LIMIT then DeltaBytes(optionDelta, old(pdu[optionPosition]) % 16)
                                   else [High(optionDelta - LIMIT), Low(optionDelta - LIMIT)])
    {
      ghost var low := pdu[optionPosition] % 16;
      OrNibbles(if optionDelta < 13 then optionDelta else 13, low);
      OrCommutes(16 * (if optionDelta < 13 then optionDelta else 13), low);
      hide Or;
      pdu[optionPosition] := pdu[optionPosition] % 16;
      if optionDelta < 13 {
        pdu[optionPosition] := OrByte(pdu[optionPosition], 16 * optionDelta);
      } else if optionDelta < LIMIT {
        pdu[optionPosition] := OrByte(pdu[optionPosition], 0xD0);
        pdu[optionPosition + 1] := optionDelta - 13;
      } else {
        pdu[optionPosition] := OrByte(pdu[optionPosition], 0xE0);
        pdu[optionPosition] := High(optionDelta - LIMIT);
        pdu[optionPosition + 1] := Low(optionDelta - LIMIT);
      }
    }

    /** Writes an option into the slot at `insertionPosition`. */
    method InsertOption(insertionPosition: nat, optionDelta: nat, optionValue: Bytes)
      requires optionDelta < WORD && |optionValue| < WORD
      requires insertionPosition + OptionSize(optionDelta, |optionValue|) <= pdu.Length
      modifies pdu
      ensures pdu[..] == Overwrite(old(pdu[..]), insertionPosition, Slot(
                           old(pdu[insertionPosition..insertionPosition + OptionSize(optionDelta, |optionValue|)]),
                           optionDelta, optionValue))
    {
      hide *;
      ghost var end := insertionPosition + OptionSize(optionDelta, |optionValue|);
      ghost var was := pdu[..];
      SlotImage(was, insertionPosition, optionDelta, optionValue, end);
      assert was[insertionPosition..end] == pdu[insertionPosition..end];
      var at := InsertHead(insertionPosition, optionDelta, |optionValue|, end);
      CopyIn(at + 1, optionValue[..Copied(|optionValue|)]);
    }

    method InsertHead(head: nat, optionDelta: nat, length: nat, ghost end: nat) returns (at: nat)
      requires optionDelta < WORD && length < WORD
      requires head + LengthEnd(DeltaEnd(optionDelta), length) < end <= pdu.Length
      modifies pdu
      ensures at == head + LengthEnd(DeltaEnd(optionDelta), length)
      ensures pdu[..] == Overwrite(old(pdu[..]), head, AfterLength(AfterDelta(old(pdu[head..end]), optionDelta),
                                                                  DeltaEnd(optionDelta), length))
    {
      hide AfterDelta, AfterLength, Overwrite;
      ghost var was := pdu[..];
      assert was[head..end] == pdu[head..end];
      at := InsertDelta(head, optionDelta, end);
      ghost var middle := pdu[..];
      assert middle[head..end] == pdu[head..end];
      at := InsertLength(head, at, length, end);
      OverwriteAgain(was, head, AfterDelta(was[head..end], optionDelta),
                     AfterLength(AfterDelta(was[head..end], optionDelta), DeltaEnd(optionDelta), length));
    }

    method InsertDelta(head: nat, optionDelta: nat, ghost end: nat) returns (at: nat)
      requires optionDelta < WORD && head + DeltaEnd(optionDelta) < end <= pdu.Length
      modifies pdu
      ensures at == head + DeltaEnd(optionDelta)
      ensures pdu[..] == Overwrite(old(pdu[..]), head, AfterDelta(old(pdu[head..end]), optionDelta))
    {
      hide Overwrite, AfterDelta, Or;
      AfterDeltaImage(pdu[..], head, end, optionDelta);
      assert pdu[..][head..end] == pdu[head..end];
      OrZeroLeft(if optionDelta < 13 then 16 * optionDelta else 0xD0);
      at := head;
      pdu[head] := 0;
      if optionDelta < 13 {
        pdu[head] := OrByte(pdu[head], 16 * optionDelta);
      } else if optionDelta < LIMIT {
        pdu[head] := OrByte(pdu[head], 0xD0);
        at := at + 1;
        pdu[at] := optionDelta - 13;
      } else {
        pdu[head] := OrByte(pdu[head], 0xE0);
        pdu[at], pdu[at + 1] := High(optionDelta - LIMIT), Low(optionDelta - LIMIT);
        at := at + 2;
      }
    }

    method InsertLength(head: nat, start: nat, length: nat, ghost end: nat) returns (at: nat)
      requires length < WORD && head <= start
      requires LengthEnd(start - head, length) < end - head && end <= pdu.Length
      modifies pdu
      ensures at == head + LengthEnd(start - head, length)
      ensures pdu[..] == Overwrite(old(pdu[..]), head, AfterLength(old(pdu[head..end]), start - head, length))
    {
      hide Overwrite, AfterLength, Or;
      AfterLengthImage(pdu[..], head, end, start - head, length);
      assert pdu[..][head..end] == pdu[head..end];
      at := start;
      if length < 13 {
        pdu[head] := OrByte(pdu[head], length);
      } else if length < LIMIT {
        pdu[head] := OrByte(pdu[head], 13);
        at := at + 1;
        pdu[at] := length - 13;
      } else {
        pdu[head] := OrByte(pdu[head], 14);
        pdu[at] := High(length - LIMIT);
        pdu[at + 1] := Low(length - LIMIT);
        at := at + 2;
      }
    }

    /** memcpy into the buffer. */
    method CopyIn(at: nat, value: Bytes)
      requires at + |value| <= pdu.Length
      modifies pdu
      ensures pdu[..] == Overwrite(old(pdu[..]), at, value)
    {
      forall i | 0 <= i < |value| {
        pdu[at + i] := value[i];
      }
    }

    /** The place for an option number, and the number of the option before it. */
    method FindInsertionPosition(optionNumber: nat) returns (position: nat, prevOptionNumber: nat)
      requires Building() || (Counted() && optionNumber >= maxAddedOptionNumber)
      ensures optionNumber >= maxAddedOptionNumber ==> position == pduLength && prevOptionNumber == maxAddedOptionNumber
      ensures optionNumber < maxAddedOptionNumber ==> Place(added, optionNumber) < |added| && position < pduLength
      ensures Building() ==>
                && Encodable(0, added[..Place(added, optionNumber)])
                && position == Start() + Offset(added, Place(added, optionNumber))
                && prevOptionNumber == LastNumber(0, added[..Place(added, optionNumber)]) <= optionNumber
                && (position == pduLength <==> Place(added, optionNumber) == |added|)
    {
      PlaceSplits(0, added, optionNumber);
      PlaceAtEnd(added, optionNumber);
      hide Small, Encodable, EncodeAll, Readable, OptionDelta, OptionLength, Place;
      if optionNumber >= maxAddedOptionNumber || pduLength == HDR + TokenLength() {
        AtEnd(added, optionNumber);
        return pduLength, maxAddedOptionNumber;
      }
      position, prevOptionNumber := WalkToPlace(optionNumber);
    }

    method WalkToPlace(optionNumber: nat) returns (position: nat, prevOptionNumber: nat)
      requires Building() && added != [] && optionNumber < LastNumber(0, added)
      ensures Place(added, optionNumber) < |added|
      ensures Encodable(0, added[..Place(added, optionNumber)])
      ensures position == Start() + Offset(added, Place(added, optionNumber)) < pduLength
      ensures prevOptionNumber == LastNumber(0, added[..Place(added, optionNumber)])
    {
      hide Small, Encodable, EncodeAll, Readable, OptionDelta, OptionLength, Place;
      position, prevOptionNumber := HDR + TokenLength(), 0;
      ghost var i := 0;
      NothingBefore(added);
      WalkStep(pdu[..], Start(), pduLength, added, 0);
      while position < pduLength && pdu[position] != MARKER
        invariant 0 <= i < |added| && Encodable(0, added[..i])
        invariant position == Start() + Offset(added, i)
        invariant prevOptionNumber == LastNumber(0, added[..i])
        invariant forall k :: 0 <= k < i ==> added[k].number <= optionNumber
        decreases |added| - i
      {
        WalkStep(pdu[..], Start(), pduLength, added, i);
        var delta := OptionDelta(pdu[..], position);
        var current := prevOptionNumber + delta;
        var length := OptionLength(pdu[..], position);
        if current > optionNumber {
          PlaceIs(added, optionNumber, i);
          return;
        }
        prevOptionNumber := current;
        position := position + Extra(delta) + Extra(length) + length + 1;
        i := i + 1;
      }
      WalkStep(pdu[..], Start(), pduLength, added, i);
      assert false;
    }

    /** Moves what follows `position` up by `gap` and gives the option there its smaller delta. */
    method OpenGap(position: nat, gap: nat, newDelta: nat, delta: nat, ghost value: Bytes, ghost rest: Bytes)
      requires position + gap < pduLength <= pdu.Length
      requires newDelta <= delta < LIMIT && |value| < LIMIT
      requires pdu[position..pduLength - gap] == EncodeOption(delta, value) + rest
      modifies pdu
      ensures pdu[..position] == old(pdu[..position])
      ensures pdu[position + gap + Extra(delta) - Extra(newDelta)..pduLength] == EncodeOption(newDelta, value) + rest
    {
      hide *;
      ghost var was := pdu[..];
      GapImage(was, position, gap, pduLength, delta, newDelta, value, rest);
      ShiftPDUUp(gap, pduLength - (position + gap));
      ShrinkDelta(position + gap, newDelta, delta);
      ghost var now := pdu[..];
      assert pdu[..position] == now[..position];
      assert pdu[position + gap + Extra(delta) - Extra(newDelta)..pduLength]
          == now[position + gap + Extra(delta) - Extra(newDelta)..pduLength];
    }

    /** Writes a smaller delta for the option whose header is at `header`, in front of its other bytes. */
    method ShrinkDelta(header: nat, newDelta: nat, delta: nat)
      requires newDelta <= delta < LIMIT && header + 1 + Extra(delta) <= pdu.Length && Extra(newDelta) <= Extra(delta)
      modifies pdu
      ensures pdu[..] == Overwrite(old(pdu[..]), header + Extra(delta) - Extra(newDelta),
                                   DeltaBytes(newDelta, old(pdu[header]) % 16))
    {
      hide *;
      var moved := header + Extra(delta) - Extra(newDelta);
      ghost var was := pdu[..];
      ShiftByte(moved, header);
      LimitInWord();
      SetOptionDelta(moved, newDelta);
      OverwriteOver(was, moved, was[header], DeltaBytes(newDelta, was[header] % 16));
    }

    /** Adds an option at the place its number asks for. Status 0 is success; status 1 says that an
        external buffer is too small, and the bytes are as before. But a refused option that would have been the
        last one is counted all the same, and the delta of the next one is taken from it. */
    method AddOption(optionNumber: nat, optionValue: Bytes) returns (status: nat)
      requires Building() || (Counted() && optionNumber >= maxAddedOptionNumber)
      requires optionNumber < WORD && |optionValue| + 5 < WORD
      modifies this, pdu
      ensures status == 1 ==> constructedFromBuffer && pdu == old(pdu) && pdu[..] == old(pdu[..])
                              && pduLength == old(pduLength) && numOptions == old(numOptions) && added == old(added)
      ensures maxAddedOptionNumber
              == if optionNumber >= old(maxAddedOptionNumber) then optionNumber else old(maxAddedOptionNumber)
      ensures status == 1 ==>
                Counted() && (old(Building()) ==> (Building() <==> optionNumber <= old(maxAddedOptionNumber)))
      ensures optionNumber >= old(maxAddedOptionNumber) ==>
                var size := OptionSize(optionNumber - old(maxAddedOptionNumber), |optionValue|);
                && (status == 1 <==> constructedFromBuffer && old(pduLength) + size > old(bufferLength))
                && (status == 0 ==> pduLength == old(pduLength) + size)
                && (constructedFromBuffer ==> bufferLength == old(bufferLength))
      ensures status == 0 && old(Building()) && SmallStep(old(added), Opt(optionNumber, optionValue)) ==>
                && Building() && added == Insert(old(added), Opt(optionNumber, optionValue))
                && numOptions == old(numOptions) + (if optionNumber >= old(maxAddedOptionNumber) then 1 else 0)
                && TokenLength() == old(TokenLength()) && pdu[..Start()] == old(pdu[..Start()])
      ensures status == 0 && optionNumber >= old(maxAddedOptionNumber)
              && SmallStep(old(added), Opt(old(Appending(optionNumber)), optionValue)) ==>
                Counted() && added == Insert(old(added), Opt(old(Appending(optionNumber)), optionValue))
      ensures status <= 1 && (!constructedFromBuffer ==> status == 0)
      ensures fresh(pdu) || pdu == old(pdu)
    {
      hide SmallStep, Small, Place, EncodeAll, Encodable, Insert, LastNumber, OptionSize, Offset;
      ghost var building := Building();
      if building {
        BuildingCounts();
      }
      var position, prevOptionNumber := FindInsertionPosition(optionNumber);
      var delta := optionNumber - prevOptionNumber;
      if position == pduLength {
        status := AppendOption(optionNumber, delta, optionValue);
      } else {
        status := InsertBefore(position, optionNumber, prevOptionNumber, optionValue);
      }
    }

    method AppendOption(optionNumber: nat, delta: nat, optionValue: Bytes) returns (status: nat)
      requires Counted() && |optionValue| + 5 < WORD && optionNumber < WORD
      requires maxAddedOptionNumber <= optionNumber && delta == optionNumber - maxAddedOptionNumber
      modifies this, pdu
      ensures status == 1 ==> pdu == old(pdu) && pdu[..] == old(pdu[..]) && added == old(added)
                              && pduLength == old(pduLength) && numOptions == old(numOptions) && Counted()
      ensures maxAddedOptionNumber == optionNumber
      ensures status == 0 && SmallStep(old(added), Opt(old(Appending(optionNumber)), optionValue)) ==>
                && Counted() && added == Insert(old(added), Opt(old(Appending(optionNumber)), optionValue))
                && numOptions == old(numOptions) + 1 && LastNumber(0, added) == old(Appending(optionNumber))
                && TokenLength() == old(TokenLength()) && pdu[..Start()] == old(pdu[..Start()])
      ensures status == 1 <==>
                constructedFromBuffer && old(pduLength) + OptionSize(delta, |optionValue|) > old(bufferLength)
      ensures status == 0 ==> pduLength == old(pduLength) + OptionSize(delta, |optionValue|)
      ensures constructedFromBuffer ==> bufferLength == old(bufferLength)
      ensures status <= 1 && (fresh(pdu) || pdu == old(pdu))
    {
      hide Small, Encodable, EncodeAll, Slot, Extra, Place, Overwrite, Insert, EncodeOption, LastNumber, SmallStep,
          OptionSize;
      PlaceAtEnd(added, Appending(optionNumber));
      ghost var was, start, end := pdu[..], Start(), pduLength;
      ghost var o := Opt(Appending(optionNumber), optionValue);
      maxAddedOptionNumber := optionNumber;
      ghost var grown;
      status, grown := WriteAtEnd(delta, optionValue);
      if status != 0 {
        return;
      }
      numOptions := numOptions + 1;
      added := Insert(added, o);
      if SmallStep(old(added), o) {
        Appended(was, grown, pdu[..], start, end, pduLength, old(added), o);
        FirstKept(was, pdu[..], start);
      }
    }

    /** The bytes of an option behind the last one; `grown` is the memory after it has been made longer. */
    method WriteAtEnd(delta: nat, optionValue: Bytes) returns (status: nat, ghost grown: Bytes)
      requires Valid() && delta < WORD && |optionValue| < WORD
      modifies this`pdu, this`block, this`bufferLength, this`pduLength, pdu
      ensures status <= 1 && (fresh(pdu) || pdu == old(pdu))
      ensures status == 1 <==>
                constructedFromBuffer && old(pduLength) + OptionSize(delta, |optionValue|) > old(bufferLength)
      ensures status == 1 ==> pdu == old(pdu) && pdu[..] == old(pdu[..]) && pduLength == old(pduLength)
                              && bufferLength == old(bufferLength)
      ensures status == 0 ==>
                && Valid() && pduLength == old(pduLength) + OptionSize(delta, |optionValue|) && |grown| == pdu.Length
                && (constructedFromBuffer ==> bufferLength == old(bufferLength))
                && grown[..old(pduLength)] == old(pdu[..pduLength])
                && pdu[..] == Overwrite(grown, old(pduLength),
                                       Slot(grown[old(pduLength)..pduLength], delta, optionValue))
    {
      hide Slot, Extra, Overwrite;
      var position := pduLength;
      var ok := Grow(pduLength + OptionSize(delta, |optionValue|));
      grown := pdu[..];
      if !ok {
        return 1, grown;
      }
      assert grown[position..pduLength] == pdu[position..pduLength];
      InsertOption(position, delta, optionValue);
      status := 0;
    }

    method InsertBefore(position: nat, optionNumber: nat, prevOptionNumber: nat,
      optionValue: Bytes) returns (status: nat)
      requires Building() && |optionValue| + 5 < WORD && optionNumber < WORD
      requires Encodable(0, added[..Place(added, optionNumber)]) && Place(added, optionNumber) < |added|
      requires position == Start() + Offset(added, Place(added, optionNumber))
      requires prevOptionNumber == LastNumber(0, added[..Place(added, optionNumber)])
      modifies this, pdu
      ensures status == 1 ==> constructedFromBuffer && pdu == old(pdu) && pdu[..] == old(pdu[..])
                              && pduLength == old(pduLength) && numOptions == old(numOptions)
                              && added == old(added) && Building()
      ensures maxAddedOptionNumber == old(maxAddedOptionNumber)
      ensures status == 0 && SmallStep(old(added), Opt(optionNumber, optionValue)) ==>
                && Building() && added == Insert(old(added), Opt(optionNumber, optionValue))
                && numOptions == old(numOptions)
                && TokenLength() == old(TokenLength()) && pdu[..Start()] == old(pdu[..Start()])
      ensures status <= 1 && (!constructedFromBuffer ==> status == 0)
      ensures fresh(pdu) || pdu == old(pdu)
    {
      hide Small, Encodable, EncodeAll, Slot, Extra, Place, EncodeOption, OptionDelta, Gapped, SmallStep, Overwrite,
          Insert, LastNumber, Offset, OptionSize;
      ghost var was, start := pdu[..], Start();
      var delta := optionNumber - prevOptionNumber;
      var ok := MakeRoom(position, optionNumber, prevOptionNumber, |optionValue|);
      if !ok {
        return 1;
      }
      ghost var gapped := pdu[..];
      InsertOption(position, delta, optionValue);
      ghost var o := Opt(optionNumber, optionValue);
      added := Insert(added, o);
      if SmallStep(old(added), o) {
        Inserted(was, gapped, pdu[..], start, position, pduLength, old(added), o);
        FirstKept(was, pdu[..], start);
      }
      return 0;
    }

    /** Opens a gap for an option of `length` bytes before the option at `position`, whose delta is
        re-computed: it gets smaller, and may need fewer bytes. */
    method MakeRoom(position: nat, optionNumber: nat, prevOptionNumber: nat, length: nat) returns (ok: bool)
      requires OptionsAre(added) && length + 5 < WORD && optionNumber < WORD
      requires Encodable(0, added[..Place(added, optionNumber)]) && Place(added, optionNumber) < |added|
      requires position == Start() + Offset(added, Place(added, optionNumber))
      requires prevOptionNumber == LastNumber(0, added[..Place(added, optionNumber)])
      modifies this`pdu, this`block, this`bufferLength, this`pduLength, pdu
      ensures !ok ==> constructedFromBuffer && pdu == old(pdu) && pdu[..] == old(pdu[..]) && pduLength == old(pduLength)
                      && Valid()
      ensures ok ==> prevOptionNumber <= optionNumber
                     && position + OptionSize(optionNumber - prevOptionNumber, length) <= pduLength
      ensures ok ==> Valid() && Gapped(old(pdu[..]), pdu[..], old(Start()), position, pduLength, added, optionNumber,
              length)
      ensures fresh(pdu) || pdu == old(pdu)
    {
      hide Small, Encodable, EncodeAll, Extra, Place, EncodeOption, LastNumber, Offset, Ahead, Gapped, OptionSize;
      ghost var was, start, oldEnd := pdu[..], Start(), pduLength;
      var nextDelta, newDelta := NextDelta(position, optionNumber, prevOptionNumber);
      ghost var next := AheadParts(was, start, position, oldEnd, added, optionNumber, nextDelta, newDelta);
      var gap := GapFor(optionNumber - prevOptionNumber, length, newDelta, nextDelta);
      ok := Grow(pduLength + gap);
      if ok {
        KeptAhead(was, pdu[..], position, oldEnd);
        OpenGap(position, gap, newDelta, nextDelta, next.0, next.1);
        RoomMade(was, pdu[..], start, position, oldEnd, pduLength, added, optionNumber, length, nextDelta, newDelta);
      }
    }

    /** The delta of the option at `position`, now and with an option in front of it. */
    method NextDelta(position: nat, optionNumber: nat, prevOptionNumber: nat) returns (delta: nat, newDelta: nat)
      requires OptionsAre(added)
      requires Encodable(0, added[..Place(added, optionNumber)]) && Place(added, optionNumber) < |added|
      requires position == Start() + Offset(added, Place(added, optionNumber))
      requires prevOptionNumber == LastNumber(0, added[..Place(added, optionNumber)])
      ensures Ahead(pdu[..], Start(), position, pduLength, added, optionNumber, delta, newDelta)
    {
      hide Small, Encodable, EncodeAll, Place, EncodeOption, OptionDelta, OptionLength, Readable, LastNumber, Offset;
      NextOption(pdu[..], Start(), pduLength, added, optionNumber);
      delta := OptionDelta(pdu[..], position);
      newDelta := prevOptionNumber + delta - optionNumber;
    }

    /* ---- Token ---- */

    /** Replaces the token. The code keeps the old length in eight bits, so a change of token length
        is defined only below 256 bytes (see `TokenShiftInside`). A token of more than 8 bytes
        is written, but its length is not. */
    method SetToken(token: Bytes) returns (status: nat)
      requires Valid() && Start() <= pduLength && |token| < 256
      requires pduLength < 256 || |token| == TokenLength()
      modifies this`pdu, this`block, this`bufferLength, this`pduLength, pdu
      ensures status == 1 <==>
                |token| == 0 || (|token| > old(TokenLength()) && constructedFromBuffer
                                 && old(pduLength) - old(TokenLength()) + |token| > old(bufferLength))
      ensures status == 1 ==> pdu == old(pdu) && pdu[..] == old(pdu[..]) && pduLength == old(pduLength)
      ensures status == 0 ==>
                && Valid() && pduLength == old(pduLength) - old(TokenLength()) + |token|
                && pdu[..pduLength] == ReplacedToken(old(pdu[..pduLength]), old(TokenLength()), token)
      ensures status <= 1 && (fresh(pdu) || pdu == old(pdu))
    {
      hide Overwrite, ReplacedToken;
      if |token| == 0 {
        return 1;
      }
      var oldTokenLength := TokenLength();
      if |token| == oldTokenLength {
        SameImage(pdu[..], pduLength, token);
        CopyIn(HDR, token);
        return 0;
      }
      var oldPDULength := pduLength % 256;
      var newLength := pduLength - oldTokenLength + |token|;
      if newLength > oldPDULength {
        status := LongerToken(token, oldPDULength, newLength);
      } else {
        ShorterToken(token, oldPDULength, newLength);
        status := 0;
      }
    }

    method LongerToken(token: Bytes, oldPDULength: nat, newLength: nat) returns (status: nat)
      requires Valid() && Start() <= pduLength == oldPDULength && TokenLength() < |token| < 256
      requires newLength == pduLength - TokenLength() + |token|
      modifies this`pdu, this`block, this`bufferLength, this`pduLength, pdu
      ensures status == 1 <==> constructedFromBuffer && newLength > old(bufferLength)
      ensures status == 1 ==> pdu == old(pdu) && pdu[..] == old(pdu[..]) && pduLength == old(pduLength)
      ensures status == 0 ==> Valid() && pduLength == newLength
      ensures status == 0 ==> pdu[..pduLength] == ReplacedToken(old(pdu[..pduLength]), old(TokenLength()), token)
      ensures status <= 1 && (fresh(pdu) || pdu == old(pdu))
    {
      hide Moved, Overwrite, ReplacedToken;
      ghost var was, t := pdu[..pduLength], TokenLength();
      var ok := Grow(newLength);
      if !ok {
        return 1;
      }
      ghost var grown := pdu[..];
      ShiftPDUUp(TokenShiftOffset(pduLength, oldPDULength), TokenShiftAmount(pduLength, |token|));
      CopyIn(HDR, token);
      LongerImage(was, grown, t, token, newLength);
      SetTokenLength(|token|);
      assert pdu[..newLength] == pdu[..][..newLength];
      return 0;
    }

    method ShorterToken(token: Bytes, oldPDULength: nat, newLength: nat)
      requires Valid() && Start() <= pduLength == oldPDULength && 0 < |token| < TokenLength()
      requires newLength == pduLength - TokenLength() + |token|
      modifies this`pdu, this`block, this`bufferLength, this`pduLength, pdu
      ensures Valid() && pduLength == newLength
      ensures pdu[..pduLength] == ReplacedToken(old(pdu[..pduLength]), old(TokenLength()), token)
      ensures fresh(pdu) || pdu == old(pdu)
    {
      hide Moved, Overwrite, ReplacedToken;
      ghost var whole, was := pdu[..], pdu[..pduLength];
      var t := TokenLength();
      CopyIn(HDR, token);
      ShiftPDUDown(HDR + |token|, oldPDULength - newLength, oldPDULength - t - HDR);
      ghost var moved := pdu[..newLength];
      ShorterImage(was, whole, t, token, newLength);
      assert moved == pdu[..][..newLength];
      pduLength := newLength;
      if !constructedFromBuffer {
        Realloc(newLength);
      }
      SetTokenLength(|token|);
      assert pdu[..newLength] == moved[0 := pdu[0]];
    }

    method SetTokenLength(tokenLength: nat)
      requires Valid() && tokenLength < 256
      modifies pdu
      ensures pdu[..] == old(pdu[..])[0 := if tokenLength > 8 then old(pdu[0]) else old(pdu[0]) / 16 * 16 + tokenLength]
    {
      if tokenLength > 8 {
        return;
      }
      pdu[0] := pdu[0] / 16 * 16;
      pdu[0] := pdu[0] + tokenLength;
    }

    /* ---- Payload ---- */

    /** The payload pointer leads into the message. */
    ghost predicate InMessage()
      reads this
    {
      payloadPointer.Some? && payloadPointer.value.block == block
    }

    /** `was` is the payload so far; the pointer to it may be left over from where the message was before. */
    ghost predicate Carries(head: Bytes, was: Bytes)
      reads this, pdu
    {
      && Valid() && pdu[..pduLength] == head + PayloadPart(was) && |head| >= HDR
      && payloadLength == |was| && (was == [] <==> payloadPointer == None)
      && (payloadPointer.Some? ==> payloadPointer.value.offset == |head| + 1)
    }

    /** Puts a payload behind `head` and a marker. A payload of another length that is there already is
        resized, but when realloc moves the message the pointer stays behind: the new payload reaches the
        message if and only if there was none, or the pointer still leads to where the message is now. It leads
        there if it did before and the message has not moved; an external buffer and a payload of the same
        length do not move it. */
    method SetPayload(payload: Bytes, ghost head: Bytes, ghost was: Bytes) returns (status: nat)
      requires Carries(head, was)
      modifies this`pdu, this`block, this`bufferLength, this`pduLength, this`payloadPointer, this`payloadLength, pdu
      ensures status == 1 <==>
                payload == [] || (|payload| != |was| && constructedFromBuffer
                    && |head| + 1 + |payload| > old(bufferLength))
      ensures status == 0 ==> Valid() && payloadLength == |payload| && pduLength == |head| + 1 + |payload|
      ensures status == 0 && was == [] ==> InMessage()
      ensures status == 0 && was != [] ==>
                payloadPointer == old(payloadPointer) && (old(InMessage()) ==> (InMessage() <==> block == old(block)))
      ensures status == 1 || constructedFromBuffer || |payload| == |was| ==> block == old(block)
      ensures status == 0 && InMessage() ==> Carries(head, payload)
      ensures status == 0 && !InMessage() ==>
                pdu[..|head| + 1] == head + [MARKER]
      ensures status == 1 ==> pdu == old(pdu) && pdu[..] == old(pdu[..]) && pduLength == old(pduLength)
                              && payloadPointer == old(payloadPointer) && payloadLength == old(payloadLength)
      ensures status <= 1 && (fresh(pdu) || pdu == old(pdu))
    {
      hide Overwrite, PayloadPart;
      var pointer := MallocPayload(|payload|, head, was);
      if pointer == None {
        return 1;
      }
      if pointer.value.block == block {
        ghost var marked := pdu[..];
        CopyIn(pointer.value.offset, payload);
        PayloadImage(marked, head, payload);
        assert pdu[..pduLength] == pdu[..][..pduLength];
      }
      status := 0;
    }

    /** Space for a payload of `length` bytes behind `head` and a marker, and the payload pointer, or None. */
    method MallocPayload(length: nat, ghost head: Bytes, ghost was: Bytes) returns (pointer: Option<Pointer>)
      requires Carries(head, was)
      modifies this`pdu, this`block, this`bufferLength, this`pduLength, this`payloadPointer, this`payloadLength, pdu
      ensures pointer == None <==>
                length == 0 || (length != |was| && constructedFromBuffer
                                && |head| + 1 + length > old(bufferLength))
      ensures pointer == None ==> pdu == old(pdu) && pdu[..] == old(pdu[..]) && pduLength == old(pduLength)
                                  && payloadLength == old(payloadLength) && payloadPointer == old(payloadPointer)
      ensures pointer.Some? ==>
                && Valid() && pointer == payloadPointer && payloadLength == length
                && pduLength == |head| + 1 + length && pdu[..|head| + 1] == head + [MARKER]
                && pointer.value.offset == |head| + 1
      ensures pointer.Some? && was == [] ==> InMessage()
      ensures pointer.Some? && was != [] ==>
                pointer == old(payloadPointer) && (old(InMessage()) ==> (InMessage() <==> block == old(block)))
      ensures pointer == None || constructedFromBuffer || length == |was| ==> block == old(block)
      ensures fresh(pdu) || pdu == old(pdu)
    {
      if length == 0 {
        return None;
      }
      MarkedHead(pdu[..pduLength], head, was);
      if length == payloadLength {
        assert pdu[..|head| + 1] == pdu[..pduLength][..|head| + 1];
        return payloadPointer;
      }
      if payloadPointer == None {
        pointer := FreshPayload(length, head);
      } else {
        assert pdu[..|head| + 1] == pdu[..pduLength][..|head| + 1];
        pointer := ResizePayload(length, head);
      }
    }

    method FreshPayload(length: nat, ghost head: Bytes) returns (pointer: Option<Pointer>)
      requires Valid() && pdu[..pduLength] == head && payloadPointer == None && payloadLength == 0 < length
      modifies this`pdu, this`block, this`bufferLength, this`pduLength, this`payloadPointer, this`payloadLength, pdu
      ensures pointer == None <==> constructedFromBuffer && |head| + 1 + length > old(bufferLength)
      ensures pointer == None ==> pdu == old(pdu) && pdu[..] == old(pdu[..]) && pduLength == old(pduLength)
                                  && payloadLength == old(payloadLength) && payloadPointer == old(payloadPointer)
      ensures pointer.Some? ==>
                && Valid() && pointer == payloadPointer == Some(Pointer(block, |head| + 1)) && payloadLength == length
                && pduLength == |head| + 1 + length && pdu[..|head| + 1] == head + [MARKER]
      ensures pointer == None || constructedFromBuffer ==> block == old(block)
      ensures fresh(pdu) || pdu == old(pdu)
    {
      var at := pduLength;
      var ok := Grow(pduLength + 1 + length);
      if !ok {
        return None;
      }
      pdu[at] := MARKER;
      payloadPointer, payloadLength := Some(Pointer(block, at + 1)), length;
      pointer := payloadPointer;
    }

    method ResizePayload(length: nat, ghost head: Bytes) returns (pointer: Option<Pointer>)
      requires Valid() && payloadLength > 0 && length > 0 && payloadPointer.Some? && |head| >= HDR
      requires pduLength == |head| + 1 + payloadLength && pdu[..|head| + 1] == head + [MARKER]
      modifies this`pdu, this`block, this`bufferLength, this`pduLength, this`payloadLength
      ensures pointer == None <==> constructedFromBuffer && |head| + 1 + length > old(bufferLength)
      ensures pointer == None ==> pdu == old(pdu) && pduLength == old(pduLength) && payloadLength == old(payloadLength)
      ensures pointer.Some? ==>
                && Valid() && pointer == payloadPointer && payloadLength == length
                && pduLength == |head| + 1 + length && pdu[..|head| + 1] == head + [MARKER]
      ensures pointer == None || constructedFromBuffer ==> pdu == old(pdu) && block == old(block)
      ensures fresh(pdu) || pdu == old(pdu)
    {
      var newLength := pduLength + length - payloadLength;
      ghost var before := pdu[..|head| + 1];
      if !constructedFromBuffer {
        ghost var kept := pdu[..if pduLength < newLength then pduLength else newLength];
        assert before == kept[..|head| + 1];
        Realloc(newLength);
        assert pdu[..|head| + 1] == kept[..|head| + 1];
      } else if newLength > bufferLength {
        return None;
      }
      pduLength, payloadLength := newLength, length;
      pointer := payloadPointer;
    }

    /* ---- Reading a received message ---- */

    /** Checks a received message and records payload and number of options. */
    method Validate() returns (result: nat)
      requires pduLength + 2 <= pdu.Length
      modifies this`payloadPointer, this`payloadLength, this`numOptions
      ensures result == 1 <==> Accepted(pdu[..], pduLength)
      ensures result == 1 ==>
                var w := Walk(pdu[..], HDR + pdu[0] % 16, pduLength, 0);
                && numOptions == |w.options|
                && (w.payload.Some? ==> payloadPointer == Some(Pointer(block, w.payload.value))
                                        && payloadLength == pduLength - w.payload.value)
                && (w.payload.None? ==> payloadLength == 0)
      ensures result <= 1
    {
      hide Walk, OptionDelta, OptionLength, KnownCode;
      ghost var b := pdu[..];
      if pduLength < 4 || pdu[0] / 64 != 1 || pdu[0] % 16 > 8 || HDR + pdu[0] % 16 > pduLength || !KnownCode(pdu[1]) {
        return 0;
      }
      var position, number, count := HDR + pdu[0] % 16, 0, 0;
      if position == pduLength {
        WalkAtEnd(b, position, 0);
        numOptions, payloadLength := 0, 0;
        return 1;
      }
      ghost var found: seq<Found> := [];
      ghost var whole := Walk(b, position, pduLength, 0);
      assert whole.Good? ==> found + whole.options == whole.options;
      while position < pduLength && pdu[position] != MARKER
        invariant HDR + pdu[0] % 16 <= position <= pduLength && count == |found|
        invariant whole == Prepend(found, Walk(b, position, pduLength, number))
        decreases pduLength - position
      {
        if !PlainHeader(pdu[position]) || !HeaderFits(pdu[..], position, pduLength)
           || position + OptionTotal(pdu[..], position) > pduLength {
          WalkStops(b, position, pduLength, number);
          return 0;
        }
        PrependStep(found, b, position, pduLength, number);
        var next := FoundAt(pdu[..], position, number);
        found := found + [next];
        position, number, count := position + next.total, next.number, count + 1;
      }
      WalkAtEnd(b, position, number);
      WalkAtMarker(b, position, pduLength, number);
      if position < pduLength {
        if pduLength - position > 1 {
          payloadPointer, payloadLength, numOptions := Some(Pointer(block, position + 1)), pduLength - position - 1,
              count;
          return 1;
        }
        payloadPointer, payloadLength := None, 0;
        return 0;
      }
      payloadPointer, payloadLength, numOptions := None, 0, count;
      return 1;
    }

    /** The options of a message that Validate has accepted. */
    method GetOptions() returns (options: seq<Found>)
      requires pduLength + 2 <= pdu.Length && Accepted(pdu[..], pduLength)
      requires numOptions == |Walk(pdu[..], HDR + pdu[0] % 16, pduLength, 0).options|
      ensures options == Walk(pdu[..], HDR + pdu[0] % 16, pduLength, 0).options
    {
      hide Walk, OptionDelta, OptionLength, KnownCode;
      ghost var b := pdu[..];
      options := [];
      var position: nat, number: nat := HDR + pdu[0] % 16, 0;
      ghost var whole := Walk(b, position, pduLength, 0);
      assert whole.Good? ==> options + whole.options == whole.options;
      for i := 0 to numOptions
        invariant |options| == i && position <= pduLength
        invariant whole == Prepend(options, Walk(b, position, pduLength, number))
      {
        WalkGoesOn(b, position, pduLength, number);
        PrependStep(options, b, position, pduLength, number);
        var next := FoundAt(pdu[..], position, number);
        options := options + [next];
        position, number := position + next.total, next.number;
      }
    }

    /** Adds every option of another message, in its order. */
    method CopyOptions(other: CoapPDU)
      requires other != this && other.pdu != pdu && Building() && !constructedFromBuffer
      requires other.pduLength + 2 <= other.pdu.Length && Accepted(other.pdu[..], other.pduLength)
      requires other.numOptions == |Walk(other.pdu[..], HDR + other.pdu[0] % 16, other.pduLength, 0).options|
      requires other.pduLength + 5 < WORD
      requires SmallCalls(added, OptsOf(other.pdu[..], other.pduLength))
      modifies this, pdu
      ensures Building() && added == InsertAll(old(added), OptsOf(other.pdu[..], other.pduLength))
      ensures other.pdu[..] == old(other.pdu[..])
    {
      hide *;
      var options := other.GetOptions();
      ghost var calls := OptsOf(other.pdu[..], other.pduLength);
      OptsCount(other.pdu[..], other.pduLength);
      ghost var result := InsertAll(added, calls);
      assert calls[0..] == calls;
      for i := 0 to |options|
        invariant Building() && (fresh(pdu) || pdu == old(pdu)) && pdu != other.pdu
        invariant SmallCalls(added, calls[i..]) && InsertAll(added, calls[i..]) == result
      {
        CopyOption(other, options[i], calls, i);
      }
      NoCalls(added, calls[|calls|..]);
    }

    /** Any sequence of calls of addOption, in any order of numbers, in memory of its own: the bytes behind
        the token decode to the stable insertion sort of the calls. */
    method AddAll(calls: seq<Opt>)
      requires Building() && !constructedFromBuffer && SmallCalls(added, calls)
      requires forall i :: 0 <= i < |calls| ==> calls[i].number < WORD && |calls[i].value| + 5 < WORD
      modifies this, pdu
      ensures Building() && added == InsertAll(old(added), calls)
      ensures Decode(0, pdu[Start()..pduLength]) == Some(Body(InsertAll(old(added), calls), []))
      ensures TokenLength() == old(TokenLength()) && pdu[..Start()] == old(pdu[..Start()])
      ensures fresh(pdu) || pdu == old(pdu)
    {
      hide Building, SmallCalls, InsertAll, Decode, SmallStep, Insert;
      ghost var result := InsertAll(added, calls);
      BuildingIsValid();
      ghost var start, head := Start(), pdu[..Start()];
      assert calls[0..] == calls;
      for i := 0 to |calls|
        invariant Building() && (fresh(pdu) || pdu == old(pdu))
        invariant SmallCalls(added, calls[i..]) && InsertAll(added, calls[i..]) == result
        invariant Valid() && Start() == start <= pduLength && pdu[..start] == head
      {
        CallsStep(added, calls, i);
        var status := AddOption(calls[i].number, calls[i].value);
        BuildingIsValid();
      }
      NoCalls(added, calls[|calls|..]);
      BuildingDecodes();
    }

    lemma BuildingDecodes()
      requires Building()
      ensures Valid() && Start() <= pduLength && Decode(0, pdu[Start()..pduLength]) == Some(Body(added, []))
    {
      hide Decode, EncodeAll, Small, Encodable;
      DecodeEncoded(0, added, []);
      NothingBehind(EncodeAll(0, added));
    }

    method CopyOption(other: CoapPDU, o: Found, ghost calls: seq<Opt>, ghost i: nat)
      requires other != this && other.pdu != pdu && Building() && !constructedFromBuffer
      requires other.pduLength + 2 <= other.pdu.Length && Accepted(other.pdu[..], other.pduLength)
      requires other.pduLength + 5 < WORD
      requires i < |Walk(other.pdu[..], HDR + other.pdu[0] % 16, other.pduLength, 0).options|
      requires o == Walk(other.pdu[..], HDR + other.pdu[0] % 16, other.pduLength, 0).options[i]
      requires calls == OptsOf(other.pdu[..], other.pduLength) && i < |calls| && SmallCalls(added, calls[i..])
      modifies this, pdu
      ensures Building() && (fresh(pdu) || pdu == old(pdu))
      ensures SmallCalls(added, calls[i + 1..])
      ensures InsertAll(added, calls[i + 1..]) == old(InsertAll(added, calls[i..]))
    {
      hide *;
      FoundInside(other.pdu[..], other.pduLength, i);
      CallsStep(added, calls, i);
      var status := AddOption(o.number, other.pdu[o.position + o.total - o.length..o.position + o.total]);
    }

    /* ---- Paths ---- */

    /** Adds the path and query options of a URI text, given without its NUL. */
    method SetURI(uri: Bytes) returns (status: nat)
      requires Building() && 0 !in uri && |uri| + 5 < WORD && SmallCalls(added, UriOptions(uri))
      modifies this, pdu
      ensures uri == [] ==> status == 1
      ensures uri != [] && !constructedFromBuffer ==>
                && status == 0 && Building() && added == InsertAll(old(added), UriOptions(uri))
                && TokenLength() == old(TokenLength()) && pdu[..Start()] == old(pdu[..Start()])
      ensures fresh(pdu) || pdu == old(pdu)
    {
      hide Building, Small, Place, NextSegment, SmallStep, SmallCalls, InsertAll, Insert, ScanOptions;
      if uri == [] {
        return 1;
      }
      if |uri| == 1 {
        LoneCall(added, Opt(URI_PATH, uri));
        var _ := AddOption(URI_PATH, uri);
        return 0;
      }
      var scan := Scan(0, SLASH, URI_PATH);
      ghost var result := InsertAll(added, UriOptions(uri));
      BuildingIsValid();
      ghost var start, head := Start(), pdu[..Start()];
      while scan.at + 1 < |uri|
        invariant scan.at <= |uri| && (scan.number == URI_PATH || scan.number == URI_QUERY)
        invariant Building() && (fresh(pdu) || pdu == old(pdu))
        invariant SmallCalls(added, ScanOptions(uri, scan)) && InsertAll(added, ScanOptions(uri, scan)) == result
        invariant Valid() && Start() == start <= pduLength && pdu[..start] == head
        decreases |uri| - scan.at
      {
        var number, step := scan.number, NextSegment(uri, scan);
        ScanStep(added, uri, scan);
        status := AddOption(number, step.value);
        if status != 0 {
          return 1;
        }
        BuildingIsValid();
        scan := step.next;
      }
      ScanDone(added, uri, scan);
      return 0;
    }

    /** Writes the options numbered `path` and `query` as one text into `dst`, closed with a NUL. */
    method GatherInto(dst: array<Byte>, dstlen: nat, path: nat, query: nat) returns (status: nat, outLen: nat)
      requires dst != pdu && 0 < dst.Length && dstlen <= dst.Length
      requires pduLength + 2 <= pdu.Length && Accepted(pdu[..], pduLength)
      requires numOptions == |OptsOf(pdu[..], pduLength)|
      modifies dst
      ensures dstlen == 0 || (dstlen == 1 && numOptions > 0) ==> status == 1
      ensures dstlen > 0 && numOptions == 0 ==> status == 0 && outLen == 0 && dst[0] == 0
      ensures dstlen > 1 && numOptions > 0 ==>
                var g := Gather(OptsOf(pdu[..], pduLength), path, query, [SLASH], false, dstlen - 1);
                && (status == 0 <==> g.Text?)
                && (g.Text? ==> outLen == g.outLen && |g.text| < dst.Length && dst[..|g.text| + 1] == g.text + [0])
    {
      status, outLen := 1, 0;
      if dstlen == 0 {
        dst[0] := 0;
        return;
      }
      if numOptions == 0 {
        dst[0] := 0;
        return 0, 0;
      }
      if dstlen == 1 {
        return;
      }
      var options := GetOptions();
      OptsStand(pdu[..], pduLength);
      hide Walk, Accepted, Gather, OptsOf, Stands;
      status, outLen := GatherLoop(dst, dstlen, path, query, options, OptsOf(pdu[..], pduLength));
    }

    method GatherLoop(dst: array<Byte>, dstlen: nat, path: nat, query: nat, options: seq<Found>, ghost opts: seq<Opt>)
      returns (status: nat, outLen: nat)
      requires dst != pdu && 1 < dstlen <= dst.Length && Stands(pdu[..], options, opts)
      modifies dst
      ensures var g := Gather(opts, path, query, [SLASH], false, dstlen - 1);
              && (status == 0 <==> g.Text?)
              && (g.Text? ==> outLen == g.outLen && |g.text| < dst.Length && dst[..|g.text| + 1] == g.text + [0])
    {
      hide Gather, GatherOne;
      dst[0] := SLASH;
      var at, inQuery := 1, false;
      ghost var b, text := pdu[..], [SLASH];
      ghost var g := Gather(opts, path, query, text, false, dstlen - 1);
      assert opts[0..] == opts;
      for i := 0 to |options|
        invariant at == |text| <= dstlen - 1 && text != [] && dst[..at] == text && pdu[..] == b
        invariant g == Gather(opts[i..], path, query, text, inQuery, dstlen - 1)
      {
        var o := options[i];
        GatherFrom(opts, i, path, query, text, inQuery, dstlen - 1);
        assert OptOf(b, o) == opts[i];
        if o.number == path || o.number == query {
          var value := pdu[o.position + o.total - o.length..o.position + o.total];
          assert value == opts[i].value;
          ghost var step := GatherOne(value, o.number == query, text, inQuery, dstlen - 1);
          var done;
          done, status, outLen, at := PutOption(dst, dstlen, at, value, o.number == query, inQuery, text);
          if done {
            return;
          }
          text, inQuery := step.text, inQuery || o.number == query;
        }
      }
      dst[at - 1] := 0;
      GatherFrom(opts, |options|, path, query, text, inQuery, dstlen - 1);
      assert dst[..at] == text[..at - 1] + [0];
      return 0, at - 1;
    }

    /** One option of the text: separator fix, space checks, copy, separator. */
    method PutOption(dst: array<Byte>, dstlen: nat, start: nat, value: Bytes, isQuery: bool, inQuery: bool,
        ghost text: Bytes)
      returns (done: bool, status: nat, outLen: nat, at: nat)
      requires dst != pdu && 1 <= start == |text| < dstlen <= dst.Length && dst[..start] == text
      modifies dst
      ensures var step := GatherOne(value, isQuery, text, inQuery, dstlen - 1);
              && done == step.Done?
              && (step.More? ==> at == |step.text| && dst[..at] == step.text)
              && (done ==> (status == 0 <==> step.result.Text?))
              && (done && status == 0 ==> var t := step.result.text;
                    outLen == step.result.outLen && |t| < dst.Length && dst[..|t| + 1] == t + [0])
    {
      done, status, outLen, at := true, 1, 0, start;
      if isQuery && !inQuery {
        ReplaceLast(dst, at, QUESTION);
      }
      if |value| > dstlen - 1 - at {
        return;
      }
      if |value| == 1 && value[0] == SLASH {
        assert value == [SLASH];
        AppendTo(dst, at, [0]);
        return true, 0, 1, at;
      }
      AppendTo(dst, at, value);
      at := at + |value|;
      if dstlen - 1 - at < 1 {
        return;
      }
      AppendTo(dst, at, [if isQuery || inQuery then AMPERSAND else SLASH]);
      at := at + 1;
      done := false;
    }

    method ReplaceLast(dst: array<Byte>, at: nat, c: Byte)
      requires 1 <= at <= dst.Length
      modifies dst
      ensures dst[..at] == old(dst[..at])[..at - 1] + [c]
    {
      dst[at - 1] := c;
    }

    method AppendTo(dst: array<Byte>, at: nat, value: Bytes)
      requires at + |value| <= dst.Length
      modifies dst
      ensures dst[..at + |value|] == old(dst[..at]) + value
    {
      ghost var was := dst[..at];
      forall k | 0 <= k < |value| {
        dst[at + k] := value[k];
      }
      forall i | 0 <= i < at + |value| ensures dst[i] == (was + value)[i] {
        assert i >= at ==> dst[at + (i - at)] == value[i - at];
      }
    }

    method GetLocation(dst: array<Byte>, dstlen: nat) returns (status: nat, outLen: nat)
      requires dst != pdu && 0 < dst.Length && dstlen <= dst.Length
      requires pduLength + 2 <= pdu.Length && Accepted(pdu[..], pduLength)
      requires numOptions == |OptsOf(pdu[..], pduLength)|
      modifies dst
      ensures dstlen > 1 && numOptions > 0 ==>
                var g := Gather(OptsOf(pdu[..], pduLength), LOCATION_PATH, LOCATION_QUERY, [SLASH], false, dstlen - 1);
                && (status == 0 <==> g.Text?)
                && (g.Text? ==> outLen == g.outLen && |g.text| < dst.Length && dst[..|g.text| + 1] == g.text + [0])
    {
      status, outLen := GatherInto(dst, dstlen, LOCATION_PATH, LOCATION_QUERY);
    }

    method GetURI(dst: array<Byte>, dstlen: nat) returns (status: nat, outLen: nat)
      requires dst != pdu && 0 < dst.Length && dstlen <= dst.Length
      requires pduLength + 2 <= pdu.Length && Accepted(pdu[..], pduLength)
      requires numOptions == |OptsOf(pdu[..], pduLength)|
      modifies dst
      ensures dstlen > 1 && numOptions > 0 ==>
                var g := Gather(OptsOf(pdu[..], pduLength), URI_PATH, URI_QUERY, [SLASH], false, dstlen - 1);
                && (status == 0 <==> g.Text?)
                && (g.Text? ==> outLen == g.outLen && |g.text| < dst.Length && dst[..|g.text| + 1] == g.text + [0])
    {
      status, outLen := GatherInto(dst, dstlen, URI_PATH, URI_QUERY);
    }
  }

  /** The `n` bytes at `from` copied to `to`; nothing else changes. */
  function Moved(was: Bytes, from: nat, to: nat, n: nat): (now: Bytes)
    requires from + n <= |was| && to + n <= |was|
    ensures |now| == |was|
  {
    was[..to] + was[from..from + n] + was[to + n..]
  }

  lemma MoveNone(was: Bytes, from: nat, to: nat)
    requires from <= |was| && to <= |was|
    ensures Moved(was, from, to, 0) == was
  {
  }

  lemma MoveOneUp(was: Bytes, from: nat, to: nat, n: nat)
    requires 0 < from <= to && to + n <= |was|
    ensures Moved(was, from - 1, to - 1, n + 1) == Moved(was, from, to, n)[to - 1 := Moved(was, from, to, n)[from - 1]]
  {
  }

  lemma MoveOneDown(was: Bytes, from: nat, to: nat, n: nat)
    requires to <= from && from + n < |was|
    ensures Moved(was, from, to, n + 1) == Moved(was, from, to, n)[to + n := Moved(was, from, to, n)[from + n]]
  {
  }

  lemma LoneCall(opts: seq<Opt>, o: Opt)
    ensures InsertAll(opts, [o]) == Insert(opts, o) && (SmallCalls(opts, [o]) ==> SmallStep(opts, o))
  {
    hide SmallStep, Insert;
    assert [o][1..] == [];
  }

  /** One segment of a URI: its option is the next call. */
  lemma ScanStep(opts: seq<Opt>, uri: Bytes, scan: Scan)
    requires scan.at + 1 < |uri| && SmallCalls(opts, ScanOptions(uri, scan))
    requires scan.number == URI_PATH || scan.number == URI_QUERY
    ensures var step := NextSegment(uri, scan);
            var o := Opt(scan.number, step.value);
            && SmallStep(opts, o) && SmallCalls(Insert(opts, o), ScanOptions(uri, step.next))
            && InsertAll(opts, ScanOptions(uri, scan)) == InsertAll(Insert(opts, o), ScanOptions(uri, step.next))
            && (step.next.number == URI_PATH || step.next.number == URI_QUERY)
  {
    hide SmallStep, Insert, NextSegment;
    NextNumber(uri, scan);
    var calls, step := ScanOptions(uri, scan), NextSegment(uri, scan);
    assert calls[0] == Opt(scan.number, step.value) && calls[1..] == ScanOptions(uri, step.next);
  }

  lemma ScanDone(opts: seq<Opt>, uri: Bytes, scan: Scan)
    requires scan.at <= |uri| <= scan.at + 1
    ensures InsertAll(opts, ScanOptions(uri, scan)) == opts
  {
  }

  lemma NoCalls(opts: seq<Opt>, calls: seq<Opt>)
    requires calls == []
    ensures InsertAll(opts, calls) == opts
  {
  }

  /** One of the calls that are left. */
  lemma CallsStep(opts: seq<Opt>, calls: seq<Opt>, i: nat)
    requires i < |calls| && SmallCalls(opts, calls[i..])
    ensures SmallStep(opts, calls[i]) && SmallCalls(Insert(opts, calls[i]), calls[i + 1..])
    ensures InsertAll(opts, calls[i..]) == InsertAll(Insert(opts, calls[i]), calls[i + 1..])
  {
    hide SmallStep, Insert;
    assert calls[i..][0] == calls[i] && calls[i..][1..] == calls[i + 1..];
  }

  /** The message after the append branch: `was` before, `grown` with room, `now` with the option. */
  lemma Appended(was: Bytes, grown: Bytes, now: Bytes, start: nat, oldEnd: nat, end: nat, opts: seq<Opt>, o: Opt)
    requires Small(0, opts) && Encodable(0, opts) && SmallStep(opts, o) && Place(opts, o.number) == |opts|
    requires start <= oldEnd <= |was| && was[start..oldEnd] == EncodeAll(0, opts)
    requires o.number >= LastNumber(0, opts)
    requires oldEnd + OptionSize(o.number - LastNumber(0, opts), |o.value|) == end <= |grown|
    requires grown[..oldEnd] == was[..oldEnd]
    requires now == Overwrite(grown, oldEnd, Slot(grown[oldEnd..end], o.number - LastNumber(0, opts), o.value))
    ensures Small(0, Insert(opts, o)) && Encodable(0, Insert(opts, o))
    ensures now[..start] == was[..start] && now[start..end] == EncodeAll(0, Insert(opts, o))
    ensures LastNumber(0, Insert(opts, o)) == o.number
  {
    hide Small, Encodable, Slot, Place, EncodeOption;
    AppendImage(opts, o);
    InsertSmall(opts, o);
    SlotRight(grown[oldEnd..end], o.number - LastNumber(0, opts), o.value);
    hide EncodeAll;
    assert now[start..end] == grown[..oldEnd][start..] + EncodeOption(o.number - LastNumber(0, opts), o.value);
  }

  /** The option the new one goes before, as it stands in the buffer. */
  lemma NextOption(b: Bytes, start: nat, end: nat, opts: seq<Opt>, n: nat)
    requires Small(0, opts) && Encodable(0, opts) && Place(opts, n) < |opts|
    requires start <= end <= |b| && b[start..end] == EncodeAll(0, opts)
    ensures var p := Place(opts, n);
            && Encodable(0, opts[..p]) && Encodable(opts[p].number, opts[p + 1..])
            && LastNumber(0, opts[..p]) <= n < opts[p].number < LastNumber(0, opts[..p]) + LIMIT
            && |opts[p].value| < LIMIT
            && start + Offset(opts, p) < end && Readable(b, start + Offset(opts, p))
            && OptionDelta(b, start + Offset(opts, p)) == opts[p].number - LastNumber(0, opts[..p])
            && b[start + Offset(opts, p)..end]
               == EncodeOption(opts[p].number - LastNumber(0, opts[..p]), opts[p].value)
                  + EncodeAll(opts[p].number, opts[p + 1..])
            && b[start..start + Offset(opts, p)] == EncodeAll(0, opts[..p])
  {
    hide Small, Encodable, EncodeAll, Place, EncodeOption, OptionDelta, OptionLength;
    PlaceSplits(0, opts, n);
    var p := Place(opts, n);
    SplitAt(0, opts, p);
    WalkStep(b, start, end, opts, p);
    assert b[start + Offset(opts, p)..end] == b[start..end][Offset(opts, p)..];
    assert b[start..start + Offset(opts, p)] == b[start..end][..Offset(opts, p)];
  }

  /** The message up to `position`, and the option there with everything behind it. */
  ghost predicate Ahead(b: Bytes, start: nat, position: nat, end: nat, opts: seq<Opt>, n: nat, delta: nat,
                        newDelta: nat)
    requires Place(opts, n) < |opts|
  {
    var p := Place(opts, n);
    var prev, next := LastNumber(0, opts[..p]), opts[p];
    && prev <= n < next.number < prev + LIMIT && |next.value| < LIMIT
    && Encodable(0, opts[..p]) && Encodable(next.number, opts[p + 1..])
    && delta == next.number - prev && newDelta == next.number - n
    && start <= position < end <= |b| && b[start..position] == EncodeAll(0, opts[..p])
    && b[position..end] == EncodeOption(delta, next.value) + EncodeAll(next.number, opts[p + 1..])
  }

  /** The value of the option at `position`, and the bytes behind it. */
  lemma AheadParts(b: Bytes, start: nat, position: nat, end: nat, opts: seq<Opt>, n: nat, delta: nat, newDelta: nat)
    returns (next: (Bytes, Bytes))
    requires Place(opts, n) < |opts| && Ahead(b, start, position, end, opts, n, delta, newDelta)
    ensures Encodable(opts[Place(opts, n)].number, opts[Place(opts, n) + 1..])
    ensures next == (opts[Place(opts, n)].value, EncodeAll(opts[Place(opts, n)].number, opts[Place(opts, n) + 1..]))
    ensures newDelta <= delta < LIMIT && |next.0| < LIMIT && position + 1 + Extra(delta) <= end <= |b|
    ensures LastNumber(0, opts[..Place(opts, n)]) <= n && delta - newDelta == n - LastNumber(0, opts[..Place(opts, n)])
    ensures b[position..end] == EncodeOption(delta, next.0) + next.1
  {
    hide Encodable, EncodeAll, Place, EncodeOption, LastNumber, Extra;
    next := (opts[Place(opts, n)].value, EncodeAll(opts[Place(opts, n)].number, opts[Place(opts, n) + 1..]));
  }

  /** What an option takes, less what the option behind it frees. */
  function GapFor(delta: nat, length: nat, newDelta: nat, nextDelta: nat): (gap: nat)
    requires nextDelta == delta + newDelta
    ensures gap + Extra(nextDelta) - Extra(newDelta) == OptionSize(delta, length)
  {
    ShiftNonNegative(delta, newDelta);
    OptionSize(delta, length) + Extra(newDelta) - Extra(nextDelta)
  }

  lemma KeptAhead(was: Bytes, now: Bytes, position: nat, end: nat)
    requires position <= end <= |was| && end <= |now| && now[..end] == was[..end]
    ensures now[position..end] == was[position..end] && now[..position] == was[..position]
  {
    assert now[position..end] == now[..end][position..] && was[position..end] == was[..end][position..];
    assert now[..position] == now[..end][..position] && was[..position] == was[..end][..position];
  }

  /** The bytes around the gap are still those that were ahead. */
  lemma RoomMade(was: Bytes, gapped: Bytes, start: nat, position: nat, oldEnd: nat, end: nat, opts: seq<Opt>, n: nat,
                 length: nat, delta: nat, newDelta: nat)
    requires Place(opts, n) < |opts| && Ahead(was, start, position, oldEnd, opts, n, delta, newDelta)
    requires Encodable(opts[Place(opts, n)].number, opts[Place(opts, n) + 1..])
    requires newDelta < LIMIT && |opts[Place(opts, n)].value| < LIMIT && LastNumber(0, opts[..Place(opts, n)]) <= n
    requires var at := position + OptionSize(n - LastNumber(0, opts[..Place(opts, n)]), length);
             && at <= end <= |gapped| && position <= |was| && gapped[..position] == was[..position]
             && gapped[at..end]
                == EncodeOption(newDelta, opts[Place(opts, n)].value)
                   + EncodeAll(opts[Place(opts, n)].number, opts[Place(opts, n) + 1..])
    ensures Gapped(was, gapped, start, position, end, opts, n, length)
  {
    hide Encodable, EncodeAll, Place, EncodeOption, LastNumber, OptionSize;
  }

  /** The message with a gap of the right size at `position`: before it the options up to the place,
      behind it the next option with its new delta and everything after it. */
  ghost predicate Gapped(was: Bytes, gapped: Bytes, start: nat, position: nat, end: nat,
                         opts: seq<Opt>, n: nat, length: nat)
    requires Place(opts, n) < |opts|
  {
    var p := Place(opts, n);
    var prev, next := LastNumber(0, opts[..p]), opts[p];
    && prev <= n < next.number < prev + LIMIT && |next.value| < LIMIT
    && Encodable(0, opts[..p]) && Encodable(next.number, opts[p + 1..])
    && start <= position && position + OptionSize(n - prev, length) <= end <= |gapped|
    && position <= |was| && gapped[..position] == was[..position]
    && was[start..position] == EncodeAll(0, opts[..p])
    && gapped[position + OptionSize(n - prev, length)..end]
       == EncodeOption(next.number - n, next.value) + EncodeAll(next.number, opts[p + 1..])
  }

  lemma FirstKept(was: Bytes, now: Bytes, start: nat)
    requires 0 < start <= |was| && start <= |now| && now[..start] == was[..start]
    ensures now[0] == was[0]
  {
    assert now[0] == now[..start][0] && was[0] == was[..start][0];
  }

  /** The message after the insertion branch: `was` before, `gapped` with the gap, `now` filled. */
  lemma Inserted(was: Bytes, gapped: Bytes, now: Bytes, start: nat, position: nat, end: nat, opts: seq<Opt>, o: Opt)
    requires Small(0, opts) && Encodable(0, opts) && SmallStep(opts, o) && Place(opts, o.number) < |opts|
    requires Gapped(was, gapped, start, position, end, opts, o.number, |o.value|)
    requires var delta := o.number - LastNumber(0, opts[..Place(opts, o.number)]);
             now == Overwrite(gapped, position,
                              Slot(gapped[position..position + OptionSize(delta, |o.value|)], delta, o.value))
    ensures Small(0, Insert(opts, o)) && Encodable(0, Insert(opts, o))
    ensures now[..start] == was[..start] && now[start..end] == EncodeAll(0, Insert(opts, o))
    ensures LastNumber(0, Insert(opts, o)) == LastNumber(0, opts)
  {
    hide Small, Encodable, EncodeAll, Slot, Extra, Place, EncodeOption, Insert, Overwrite;
    var p := Place(opts, o.number);
    var prev, next := LastNumber(0, opts[..p]), opts[p];
    MiddleImage(opts, o);
    LastInserted(opts, o);
    var size := OptionSize(o.number - prev, |o.value|);
    SlotRight(gapped[position..position + size], o.number - prev, o.value);
    var option := EncodeOption(o.number - prev, o.value);
    OverwriteParts(gapped, position, option, start, end);
    assert gapped[start..position] == gapped[..position][start..] == was[..position][start..] == was[start..position];
    Assoc(was[start..position], option, gapped[position + size..end]);
    assert now[..start] == gapped[..position][..start] == was[..position][..start];
  }

  /** The delta part of a header, with the length nibble kept. */
  function DeltaBytes(delta: nat, low: nat): (b: Bytes)
    requires delta < LIMIT && low < 16
    ensures |b| == 1 + Extra(delta)
  {
    [16 * Nibble(delta) + low] + Extension(delta)
  }

  lemma OverwriteOver(b: Bytes, at: nat, x: Byte, v: Bytes)
    requires at + |v| <= |b| && v != []
    ensures Overwrite(b[at := x], at, v) == Overwrite(b, at, v)
  {
  }

  /** A message moved up by `gap` from `position` on, and the option that starts there with its new delta. */
  lemma GapImage(was: Bytes, position: nat, gap: nat, end: nat, delta: nat, newDelta: nat, value: Bytes, rest: Bytes)
    requires newDelta <= delta < LIMIT && |value| < LIMIT && position + gap < end <= |was|
    requires was[position..end - gap] == EncodeOption(delta, value) + rest
    ensures Extra(newDelta) <= Extra(delta) && position + gap + 1 + Extra(delta) <= end && Fits(newDelta)
    ensures var b := Moved(was, position, position + gap, end - position - gap);
            var at := position + gap + Extra(delta) - Extra(newDelta);
            var now := Overwrite(b, at, DeltaBytes(newDelta, b[position + gap] % 16));
            now[..position] == was[..position] && now[at..end] == EncodeOption(newDelta, value) + rest
  {
    hide EncodeOption, Extra, Nibble, Extension, Moved, Overwrite;
    ExtraMonotone(newDelta, delta);
    NewDelta(delta, newDelta, value, rest);
    MovedUp(was, position, gap, end);
    var option := EncodeOption(delta, value) + rest;
    var b := Moved(was, position, position + gap, end - position - gap);
    assert b[position + gap] == b[position + gap..end][0];
    SliceOfSlice(b, position + gap, end, 1 + Extra(delta), |option|);
    assert option[1 + Extra(delta)..] == option[1 + Extra(delta)..|option|];
    var at := position + gap + Extra(delta) - Extra(newDelta);
    OverwriteSlices(b, at, DeltaBytes(newDelta, b[position + gap] % 16), position, end);
  }

  lemma OverwriteSlices(b: Bytes, at: nat, v: Bytes, i: nat, j: nat)
    requires i <= at && at + |v| <= j <= |b|
    ensures Overwrite(b, at, v)[..i] == b[..i] && Overwrite(b, at, v)[at..j] == v + b[at + |v|..j]
  {
  }

  lemma LimitInWord()
    ensures LIMIT < WORD
  {
  }

  lemma MovedUp(was: Bytes, position: nat, gap: nat, end: nat)
    requires position + gap < end <= |was|
    ensures var b := Moved(was, position, position + gap, end - position - gap);
            b[..position] == was[..position] && b[position + gap..end] == was[position..end - gap]
  {
  }

  lemma LastInserted(opts: seq<Opt>, o: Opt)
    requires Place(opts, o.number) < |opts|
    ensures LastNumber(0, Insert(opts, o)) == LastNumber(0, opts)
  {
    hide Place, LastNumber;
    var p := Place(opts, o.number);
    LastOf(opts[..p] + [o], opts[p..]);
    LastOf(opts[..p], opts[p..]);
    assert opts[..p] + opts[p..] == opts;
  }

  lemma LastOf(a: seq<Opt>, b: seq<Opt>)
    requires b != []
    ensures LastNumber(0, a + b) == b[|b| - 1].number
  {
  }

  lemma ExtraMonotone(a: nat, b: nat)
    requires a <= b
    ensures Extra(a) <= Extra(b)
  {
  }

  /** The options of an accepted message, with their values. */
  function OptsOf(b: Bytes, length: nat): (opts: seq<Opt>)
    requires length + 2 <= |b| && Accepted(b, length)
  {
    var options := Walk(b, HDR + b[0] % 16, length, 0).options;
    WalkTiles(b, HDR + b[0] % 16, length, 0);
    TiledInside(options, HDR + b[0] % 16, OptionsEnd(Walk(b, HDR + b[0] % 16, length, 0), length));
    seq(|options|, i requires 0 <= i < |options| => OptOf(b, options[i]))
  }

  lemma OptsCount(b: Bytes, length: nat)
    requires length + 2 <= |b| && Accepted(b, length)
    ensures |OptsOf(b, length)| == |Walk(b, HDR + b[0] % 16, length, 0).options|
  {
    hide Walk, Accepted;
  }

  lemma FoundInside(b: Bytes, length: nat, i: nat)
    requires length + 2 <= |b| && Accepted(b, length)
    requires i < |Walk(b, HDR + b[0] % 16, length, 0).options|
    ensures var o := Walk(b, HDR + b[0] % 16, length, 0).options[i];
            && 0 <= o.position + o.total - o.length <= o.position + o.total <= length && o.number < WORD
            && |OptsOf(b, length)| == |Walk(b, HDR + b[0] % 16, length, 0).options|
            && OptsOf(b, length)[i] == OptOf(b, o)
            && OptOf(b, o) == Opt(o.number, b[o.position + o.total - o.length..o.position + o.total])
  {
    hide OptsOf, OptionsEnd, Accepted, Walk;
    AcceptedWalks(b, length);
    WalkTiles(b, HDR + b[0] % 16, length, 0);
    TiledInside(Walk(b, HDR + b[0] % 16, length, 0).options, HDR + b[0] % 16,
                OptionsEnd(Walk(b, HDR + b[0] % 16, length, 0), length));
    WalkNumbers(b, HDR + b[0] % 16, length, 0);
    OptAt(b, length, i);
  }

  lemma AcceptedWalks(b: Bytes, length: nat)
    requires length + 2 <= |b| && Accepted(b, length)
    ensures HDR + b[0] % 16 <= length && Walk(b, HDR + b[0] % 16, length, 0).Good?
  {
    hide Walk, KnownCode;
  }

  lemma OptAt(b: Bytes, length: nat, i: nat)
    requires length + 2 <= |b| && Accepted(b, length)
    requires i < |Walk(b, HDR + b[0] % 16, length, 0).options|
    ensures var o := Walk(b, HDR + b[0] % 16, length, 0).options[i];
            && |OptsOf(b, length)| == |Walk(b, HDR + b[0] % 16, length, 0).options|
            && 0 <= o.ValuePosition() && o.position + o.total <= |b| && OptsOf(b, length)[i] == OptOf(b, o)
  {
    hide Walk, Accepted, Tiled;
    AcceptedWalks(b, length);
    WalkTiles(b, HDR + b[0] % 16, length, 0);
    TiledInside(Walk(b, HDR + b[0] % 16, length, 0).options, HDR + b[0] % 16,
                OptionsEnd(Walk(b, HDR + b[0] % 16, length, 0), length));
  }

  lemma OptsStand(b: Bytes, length: nat)
    requires length + 2 <= |b| && Accepted(b, length)
    ensures Stands(b, Walk(b, HDR + b[0] % 16, length, 0).options, OptsOf(b, length))
  {
    var options := Walk(b, HDR + b[0] % 16, length, 0).options;
    forall i | 0 <= i < |options|
      ensures 0 <= options[i].ValuePosition() && options[i].position + options[i].total <= |b|
      ensures OptOf(b, options[i]) == OptsOf(b, length)[i]
    {
      FoundInside(b, length, i);
    }
  }

  /** Up to the marker, a message with a payload is its head. */
  lemma MarkedHead(whole: Bytes, head: Bytes, was: Bytes)
    requires whole == head + PayloadPart(was)
    ensures was != [] ==> |whole| == |head| + 1 + |was| && whole[..|head| + 1] == head + [MARKER]
    ensures was == [] ==> whole == head
  {
  }

  /** Two payloads, one after the other, on a new message in memory of its own: the second one reaches the
      message if and only if that has not moved in between, which only equal lengths guarantee. */
  method SetTwice(first: Bytes, second: Bytes) returns (p: CoapPDU, landed: bool, moved: bool)
    requires first != [] && second != []
    ensures fresh(p) && (landed <==> !moved) && (|first| == |second| ==> !moved)
    ensures p.pduLength == HDR + 1 + |second| <= p.pdu.Length
    ensures landed ==> p.pdu[..p.pduLength] == [0x40, 0, 0, 0] + [MARKER] + second
    ensures !landed ==> p.payloadPointer.Some? && p.payloadPointer.value.block != p.block
  {
    hide PayloadPart;
    p := new CoapPDU();
    ghost var head: Bytes := [0x40, 0, 0, 0];
    NoPayload(head);
    var status := p.SetPayload(first, head, []);
    var before := p.block;
    status := p.SetPayload(second, head, first);
    landed, moved := p.payloadPointer.value.block == p.block, p.block != before;
    SomePayload(head, second);
  }

  /** Input: an external buffer of six bytes. Option 50 with a value of three bytes is refused; option 60, which
      fits, is then written with the delta 10, and so is option 10. */
  method RefusedThenAdded(buffer: array<Byte>) returns (p: CoapPDU)
    requires buffer.Length == 6
    modifies buffer
    ensures fresh(p) && p.Valid() && p.pduLength == 5
    ensures Decode(0, p.pdu[HDR..p.pduLength]) == Some(Body([Opt(10, [])], []))
  {
    hide Small, Encodable, EncodeAll, Insert, SmallStep, OptionSize, LastNumber, Place, Decode;
    p := new CoapPDU.FromBuffer(buffer, 0);
    p.BuildingCounts();
    Sizes();
    var status := p.AddOption(50, [1, 2, 3]);
    status := p.AddOption(60, []);
    AloneTen([Opt(10, [])]);
    TenDecodes([Opt(10, [])]);
    assert p.pdu[p.Start()..p.pduLength] == EncodeAll(0, [Opt(10, [])]);
  }

  lemma Sizes()
    ensures OptionSize(50, 3) == 5 && OptionSize(10, 0) == 1 && LastNumber(0, []) == 0
  {
  }

  lemma AloneTen(opts: seq<Opt>)
    requires opts == [Opt(10, [])]
    ensures SmallStep([], opts[0]) && Insert([], opts[0]) == opts && Encodable(0, opts)
  {
    assert opts[1..] == [];
  }

  lemma TenDecodes(opts: seq<Opt>)
    requires opts == [Opt(10, [])] && Encodable(0, opts)
    ensures |EncodeAll(0, opts)| == 1 && Decode(0, EncodeAll(0, opts)) == Some(Body(opts, []))
  {
    hide Decode, Encodable;
    assert opts[1..] == [];
    DecodeEncoded(0, opts, []);
    NothingBehind(EncodeAll(0, opts));
  }

  lemma NothingBehind(b: Bytes)
    ensures b + PayloadPart([]) == b
  {
  }

  method WithToken(token: Bytes) returns (p: CoapPDU)
    requires 0 < |token| <= 8
    ensures fresh(p) && fresh(p.pdu) && p.Building() && p.added == [] && !p.constructedFromBuffer
    ensures p.TokenLength() == |token| && p.pdu[HDR..p.Start()] == token
  {
    hide ReplacedToken, Small, Encodable, EncodeAll;
    p := new CoapPDU();
    var status := p.SetToken(token);
    NewToken(p.pdu[..p.pduLength], token);
    EmptyMessage();
  }

  /** A message built the usual way decodes, in the sense of RFC 7252, to what it was built from. */
  method Build(token: Bytes, calls: seq<Opt>, payload: Bytes) returns (p: CoapPDU)
    requires 0 < |token| <= 8 && payload != []
    requires forall i :: 0 <= i < |calls| ==> calls[i].number < LIMIT && |calls[i].value| < LIMIT
    ensures fresh(p) && p.Valid() && p.TokenLength() == |token| && p.Start() <= p.pduLength
    ensures p.pdu[HDR..p.Start()] == token
    ensures Decode(0, p.pdu[p.Start()..p.pduLength]) == Some(Body(InsertAll([], calls), payload))
  {
    hide Decode, SmallCalls, InsertAll, PayloadPart, Small, Encodable, EncodeAll;
    p := WithToken(token);
    SmallNumbers([], calls);
    ghost var front := p.pdu[..p.Start()];
    p.AddAll(calls);
    ghost var head, start := p.pdu[..p.pduLength], p.Start();
    assert head[..start] == front;
    NoPayload(head);
    var status := p.SetPayload(payload, head, []);
    ghost var whole := p.pdu[..p.pduLength];
    BodyBehind(whole, head, start, p.added, payload);
    assert p.pdu[HDR..start] == whole[HDR..start] == head[..start][HDR..];
    assert p.pdu[start..p.pduLength] == whole[start..];
  }

  lemma NoPayload(head: Bytes)
    ensures head + PayloadPart([]) == head
  {
  }

  lemma EmptyMessage()
    ensures Small(0, []) && Encodable(0, []) && EncodeAll(0, []) == [] && LastNumber(0, []) == 0
  {
  }

  /** The new message with a token. */
  lemma NewToken(b: Bytes, token: Bytes)
    requires 0 < |token| <= 8 && b == ReplacedToken([0x40, 0, 0, 0], 0, token)
    ensures |b| == HDR + |token| && b[0] % 16 == |token| && b[HDR..] == token
  {
  }

  lemma BodyBehind(whole: Bytes, head: Bytes, start: nat, opts: seq<Opt>, payload: Bytes)
    requires HDR <= start <= |head| && Encodable(0, opts) && head[start..] == EncodeAll(0, opts)
    requires whole == head + PayloadPart(payload)
    ensures whole[HDR..start] == head[HDR..start]
    ensures Decode(0, whole[start..]) == Some(Body(opts, payload))
  {
    hide Decode, EncodeAll, Encodable, PayloadPart;
    DecodeEncoded(0, opts, payload);
    assert whole[start..] == head[start..] + PayloadPart(payload);
  }

  lemma SomePayload(head: Bytes, payload: Bytes)
    requires payload != []
    ensures head + PayloadPart(payload) == head + [MARKER] + payload
  {
    assert head + ([MARKER] + payload) == head + [MARKER] + payload;
  }

  lemma PayloadImage(marked: Bytes, head: Bytes, payload: Bytes)
    requires payload != [] && |head| + 1 + |payload| <= |marked| && marked[..|head| + 1] == head + [MARKER]
    ensures Overwrite(marked, |head| + 1, payload)[..|head| + 1 + |payload|] == head + PayloadPart(payload)
  {
    assert Overwrite(marked, |head| + 1, payload)[..|head| + 1 + |payload|] == marked[..|head| + 1] + payload;
    assert head + ([MARKER] + payload) == head + [MARKER] + payload;
  }

  /** A message with its token replaced: the length nibble, the token, and everything behind it. */
  function ReplacedToken(was: Bytes, oldTokenLength: nat, token: Bytes): Bytes
    requires HDR + oldTokenLength <= |was|
  {
    [if |token| > 8 then was[0] else was[0] / 16 * 16 + |token|] + was[1..HDR] + token + was[HDR + oldTokenLength..]
  }

  function WithLength(b: Bytes, token: Bytes): Bytes
    requires b != []
  {
    b[0 := if |token| > 8 then b[0] else b[0] / 16 * 16 + |token|]
  }

  lemma SameImage(was: Bytes, end: nat, token: Bytes)
    requires HDR + |token| <= end <= |was| && was[0] % 16 == |token|
    ensures var b := Overwrite(was, HDR, token);
            b[0] == was[0] && b[..end] == ReplacedToken(was[..end], |token|, token)
  {
    var b := Overwrite(was, HDR, token);
    assert b[..end] == was[..HDR] + token + was[HDR + |token|..end];
    assert was[..HDR] == [was[0]] + was[1..HDR];
    assert was[0] / 16 * 16 + |token| == was[0];
  }

  lemma LongerImage(was: Bytes, grown: Bytes, t: nat, token: Bytes, end: nat)
    requires HDR + t <= |was| && end == |was| - t + |token| <= |grown| && t < |token| && grown[..|was|] == was
    ensures var b := Overwrite(Moved(grown, HDR + t, HDR + |token|, end - |token| - HDR), HDR, token);
            b[0] == was[0] && WithLength(b, token)[..end] == ReplacedToken(was, t, token)
  {
    var b := Overwrite(Moved(grown, HDR + t, HDR + |token|, end - |token| - HDR), HDR, token);
    assert grown[HDR + t..|was|] == was[HDR + t..];
    assert b[..end] == was[..HDR] + token + was[HDR + t..];
    HeadSet(was, b[..end], t, token);
  }

  lemma ShorterImage(was: Bytes, whole: Bytes, t: nat, token: Bytes, end: nat)
    requires HDR + t <= |was| <= |whole| && end == |was| - t + |token| && |token| < t && whole[..|was|] == was
    ensures var b := Moved(Overwrite(whole, HDR, token), HDR + t, HDR + |token|, |was| - t - HDR);
            b[0] == was[0] && WithLength(b[..end], token) == ReplacedToken(was, t, token)
  {
    var b := Moved(Overwrite(whole, HDR, token), HDR + t, HDR + |token|, |was| - t - HDR);
    assert whole[HDR + t..|was|] == was[HDR + t..];
    assert b[..end] == was[..HDR] + token + was[HDR + t..];
    HeadSet(was, b[..end], t, token);
  }

  lemma HeadSet(was: Bytes, c: Bytes, t: nat, token: Bytes)
    requires HDR + t <= |was| && c == was[..HDR] + token + was[HDR + t..]
    ensures c[0] == was[0] && WithLength(c, token) == ReplacedToken(was, t, token)
  {
  }

  /** The bytes behind the token, and so the options and the payload, are the same before and after a
      new token exactly when its length can be written. */
  lemma TokenKeepsOptions(was: Bytes, token: Bytes)
    requires HDR <= |was| && HDR + was[0] % 16 <= |was|
    ensures var now := ReplacedToken(was, was[0] % 16, token);
            && (|token| <= 8 ==> now[HDR + now[0] % 16..] == was[HDR + was[0] % 16..])
            && (|token| <= 8 ==> now[0] / 16 == was[0] / 16 && now[HDR..HDR + now[0] % 16] == token)
            && (now[0] % 16 == |token| <==> |token| <= 8 || |token| == was[0] % 16)
  {
    var now := ReplacedToken(was, was[0] % 16, token);
    assert now[HDR + |token|..] == was[HDR + was[0] % 16..];
  }

  /** The arguments that setToken passes to its upward shift: the old length is the one kept in eight bits. */
  function TokenShiftOffset(newLength: nat, oldPDULength: nat): (n: int) {
    newLength - oldPDULength
  }

  function TokenShiftAmount(newLength: nat, tokenLength: nat): (n: int) {
    newLength - tokenLength - HDR
  }

  /** For a new token of another length, the shift keeps the precondition of `ShiftPDUUp`, and so stays in the
      buffer, if and only if the message is below 256 bytes. Then it starts behind the old token; from 256 bytes on
      it is always taken, also for a shorter token, and starts in front of the buffer. */
  lemma TokenShiftInside(length: nat, oldTokenLength: nat, tokenLength: nat)
    requires oldTokenLength < 16 && HDR + oldTokenLength <= length && tokenLength < 256
    requires tokenLength != oldTokenLength
    ensures var newLength, kept := length - oldTokenLength + tokenLength, length % 256;
            var offset, amount := TokenShiftOffset(newLength, kept), TokenShiftAmount(newLength, tokenLength);
            && (length >= 256 ==> newLength > kept)
            && (newLength > kept ==>
                  && 0 <= offset && 0 <= amount
                  && (offset + amount <= newLength <==> length < 256)
                  && (length < 256 ==> newLength - amount - offset == HDR + oldTokenLength))
  {
  }

  lemma NextNumber(s: Bytes, scan: Scan)
    requires scan.at + 1 < |s|
    ensures NextSegment(s, scan).next.number == scan.number || NextSegment(s, scan).next.number == URI_QUERY
  {
  }

  lemma NothingBefore(opts: seq<Opt>)
    ensures Encodable(0, opts[..0]) && Offset(opts, 0) == 0 && LastNumber(0, opts[..0]) == 0
  {
  }

  /** When the code appends: the number is at least the last one, or there is no option yet. */
  lemma AtEnd(opts: seq<Opt>, n: nat)
    requires Small(0, opts) && Encodable(0, opts)
    requires LastNumber(0, opts) <= n || EncodeAll(0, opts) == []
    ensures Place(opts, n) == |opts| && opts[..Place(opts, n)] == opts
  {
    if EncodeAll(0, opts) == [] && opts != [] {
      assert false;
    }
    PlaceAtEnd(opts, n);
  }

  lemma SlotRoom(delta: nat, length: nat)
    ensures LengthEnd(DeltaEnd(delta), length) + 1 + Copied(length) <= OptionSize(delta, length)
    ensures Copied(length) <= length
  {
  }

  /** Overwriting within a block that was itself just written. */
  lemma OverwriteAgain(b: Bytes, at: nat, u: Bytes, v: Bytes)
    requires |u| == |v| && at + |u| <= |b|
    ensures Overwrite(b, at, u)[at..at + |u|] == u && Overwrite(Overwrite(b, at, u), at, v) == Overwrite(b, at, v)
  {
  }

  lemma AfterDeltaImage(was: Bytes, head: nat, end: nat, delta: nat)
    requires delta < WORD && head + DeltaEnd(delta) < end <= |was|
    ensures Overwrite(was, head, AfterDelta(was[head..end], delta))
            == if delta < 13 then was[head := 16 * delta]
               else if delta < LIMIT then was[head := 0xD0][head + 1 := delta - 13]
               else was[head := High(delta - LIMIT)][head + 1 := Low(delta - LIMIT)]
  {
  }

  lemma AfterLengthImage(was: Bytes, head: nat, end: nat, at: nat, length: nat)
    requires length < WORD && head + LengthEnd(at, length) < end <= |was|
    ensures Overwrite(was, head, AfterLength(was[head..end], at, length))
            == if length < 13 then was[head := OrByte(was[head], length)]
               else if length < LIMIT then was[head := OrByte(was[head], 13)][head + at + 1 := length - 13]
               else was[head := OrByte(was[head], 14)]
                       [head + at := High(length - LIMIT)][head + at + 1 := Low(length - LIMIT)]
  {
    hide Or;
    assert was[head..end][0] == was[head];
  }

  /** Header and value bytes written one after the other fill the slot. */
  lemma SlotImage(was: Bytes, position: nat, delta: nat, value: Bytes, end: nat)
    requires delta < WORD && |value| < WORD && position + OptionSize(delta, |value|) == end <= |was|
    ensures position + LengthEnd(DeltaEnd(delta), |value|) < end && Copied(|value|) <= |value|
    ensures var at := position + LengthEnd(DeltaEnd(delta), |value|);
            var head := AfterLength(AfterDelta(was[position..end], delta), DeltaEnd(delta), |value|);
            && at + 1 + Copied(|value|) <= |was|
            && Overwrite(Overwrite(was, position, head), at + 1, value[..Copied(|value|)])
               == Overwrite(was, position, Slot(was[position..end], delta, value))
  {
    SlotRoom(delta, |value|);
    hide AfterDelta, AfterLength, Extra, Overwrite, DeltaEnd, LengthEnd, Copied;
    var head := AfterLength(AfterDelta(was[position..end], delta), DeltaEnd(delta), |value|);
    OverwriteTwice(was, position, head, position + LengthEnd(DeltaEnd(delta), |value|) + 1, value[..Copied(|value|)]);
  }

  lemma OverwriteTwice(b: Bytes, at: nat, block: Bytes, inner: nat, v: Bytes)
    requires at <= inner && inner + |v| <= at + |block| <= |b|
    ensures Overwrite(Overwrite(b, at, block), inner, v) == Overwrite(b, at, Overwrite(block, inner - at, v))
  {
  }

  lemma OverwriteParts(b: Bytes, at: nat, v: Bytes, from: nat, to: nat)
    requires from <= at && at + |v| <= to <= |b|
    ensures Overwrite(b, at, v)[from..to] == b[from..at] + v + b[at + |v|..to]
    ensures Overwrite(b, at, v)[..from] == b[..at][..from]
  {
  }

  lemma {:induction false} OrCommutes(a: nat, b: nat)
    ensures Or(a, b) == Or(b, a)
    decreases a + b
  {
    if a + b > 0 { OrCommutes(a / 2, b / 2); }
  }

  lemma OrZeroLeft(a: nat)
    ensures Or(0, a) == a
  {
    OrCommutes(0, a);
    OrZero(a);
  }
}
