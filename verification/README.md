# CoAP-EAP controller and device: a verified model

A Contiki device joins a network by running EAP over CoAP with a controller, which asks a RADIUS server. This
project models the code both sides rely on and proves it against the standards it implements, as 48 Dafny modules,
one module to a file. `dafny verify dfyconfig.toml` checks all of it.

- **CoAP, twice.** `OptionFormat` is the message format of section 3.1 of RFC 7252. The controller's `CoapPDU`
  edits a message in place (`CoapPdu`, with `OptionOrder`, `OptionRead`, `OptionSlot`, `BuildImage`, `PduWalk`,
  `UriText`). The device's Erbium writes a message from a struct and parses one by overwriting its own input
  (`ErbiumPacket`, `SplitMerge`, `ErbiumRoundTrip`, `ErbiumParse`, `ErbiumMessage`, `ErbiumWriter`, `ErbiumReader`,
  `ErbiumSetters`). `Journey` sends a path through both and back.
- **AES and EAX.** Field, tables, rounds, cipher and CBC of `aes.c` against FIPS 197 (`AesField`, `AesTables`,
  `AesRounds`, `AesState`, `AesCipher`, `Aes`, `AesCbc`), and `eax.c` against RFC 4493 and 128-bit arithmetic
  (`EaxMath`, `Eax`).
- **uthash.** The table with its two linked structures, its expansion and its merge sort (`HashLists`, `UtHash`,
  `HashSortSpec`, `HashSort`).
- **Concurrency in the controller.** The task list with its semaphore, the alarm list and the retransmissions, in
  every interleaving (`TaskList`, `TaskQueue`, `TaskRuns`, `AlarmOrder`, `AlarmList`, `Retransmission`).
- **Protocols of the device.** The listing of resources, blockwise transfer, and the transaction layer (`WellKnown`,
  `BlockTransfer`, `BlockRequest`, `ListingTransfer`, `Transactions`, `Callbacks`, `TransactionRuns`,
  `TransactionLayer`).
- **PANA.** Attribute-value pairs, the AUTH value, and relayed messages (`PanaAvps`, `PanaMessage`, `PanaRelay`).

Code that changes buffers, fields or linked nodes in place is a method or a class that does the same; each is proved
equal to a function on sequences, and what the code promises is proved of the function. Random numbers, clocks, the
network, what a RADIUS server says and the order in which threads run are parameters or free choices of a run.

## Model

| member | source | states |
|---|---|---|
| `OptionFormat.DecodeEncoded` | coap-eap-controller/src/cantcoap-master/cantcoap.cpp:1681-1730 | Options in ascending order and a payload, written as section 3.1 of RFC 7252 asks, decode to exactly these options and this payload. |
| `OptionFormat.DecodePrefix` | coap-eap-controller/src/cantcoap-master/cantcoap.cpp:1535-1583 | Encoded options in front of any decodable bytes are decoded first, and decoding then goes on with those bytes. |
| `OptionRead.ReadMatches` | coap-eap-controller/src/cantcoap-master/cantcoap.cpp:1535-1583 | On every option whose delta and length fit 16 bits, the in-place reads of delta and length, the value slice and the step to the next option are those of RFC 7252. |
| `OptionOrder.PlaceSplits` | coap-eap-controller/src/cantcoap-master/cantcoap.cpp:1593-1628 | The insertion place has only numbers up to the new one before it and a larger number at it. |
| `OptionOrder.InsertionSort` | coap-eap-controller/src/cantcoap-master/cantcoap.cpp:1159-1290 | Any sequence of insertions in any order leaves the options ascending, with the same elements, and with equal numbers in call order. |
| `OptionOrder.BuiltDecodes` | coap-eap-controller/src/cantcoap-master/cantcoap.cpp:1159-1290 | The encoding of the insertion sort of any calls, with any payload behind it, decodes to that sort and that payload. |
| `OptionOrder.ShiftNonNegative` | coap-eap-controller/src/cantcoap-master/cantcoap.cpp:1631-1641 | Splitting a delta in two never frees more extension bytes than the new option takes, so the bytes behind are always shifted up. |
| `OptionSlot.SlotRight` | coap-eap-controller/src/cantcoap-master/cantcoap.cpp:1681-1730 | With delta and length below 269, the bytes insertOption leaves in the slot are the encoding of the option, whatever was there. |
| `CoapPdu.CoapPDU.SetOptionDelta` | coap-eap-controller/src/cantcoap-master/cantcoap.cpp:1649-1670 | The delta bytes written at an option, branch by branch; nothing else changes. |
| `CoapPdu.CoapPDU.InsertOption` | coap-eap-controller/src/cantcoap-master/cantcoap.cpp:1681-1730 | Only the slot of the option changes, to what the branches for delta and length leave there. |
| `CoapPdu.CoapPDU.ShiftPDUUp` | coap-eap-controller/src/cantcoap-master/cantcoap.cpp:1501-1510 | A block of the buffer moves to the end of the message, the rest stays. |
| `CoapPdu.CoapPDU.ShiftPDUDown` | coap-eap-controller/src/cantcoap-master/cantcoap.cpp:1520-1528 | A block of the buffer moves down to a place, the rest stays. |
| `CoapPdu.CoapPDU.FindInsertionPosition` | coap-eap-controller/src/cantcoap-master/cantcoap.cpp:1593-1628 | The walk over the bytes finds the offset of the insertion place and the number before it; the place is the end if and only if no larger number has been added. |
| `CoapPdu.CoapPDU.AddOption` | coap-eap-controller/src/cantcoap-master/cantcoap.cpp:1159-1290 | The bytes afterwards are the encoding of the options with the new one inserted at its place; token and header stay. A refused option leaves the bytes as they were but is counted as the last one if its number is the largest; then, and only then, the object is no longer the message it was building, and an appended option gets the last number plus the distance to the refused one. |
| `CoapPdu.CoapPDU.AddAll` | coap-eap-controller/src/cantcoap-master/cantcoap.cpp:1159-1290 | After any sequence of calls in any order of numbers, the bytes behind the token decode to the stable insertion sort of the calls. |
| `CoapPdu.Build` | coap-eap-controller/src/cantcoap-master/cantcoap.cpp:909-1416 | Token, any calls of addOption and a payload on a new message give bytes that decode to exactly token, sorted options and payload. |
| `CoapPdu.CoapPDU.SetToken` | coap-eap-controller/src/cantcoap-master/cantcoap.cpp:909-992 | The message is the old one with its token replaced, longer or shorter; status 1 exactly for an empty token or a buffer that is too small. |
| `CoapPdu.TokenKeepsOptions` | coap-eap-controller/src/cantcoap-master/cantcoap.cpp:909-992 | Behind a replaced token of 1 to 8 bytes, options and payload are byte for byte the same, and the length nibble finds them; for longer tokens the nibble is wrong unless it happens to agree. |
| `CoapPdu.CoapPDU.MallocPayload` | coap-eap-controller/src/cantcoap-master/cantcoap.cpp:1302-1368 | When space is refused, and where the returned pointer leads: into the message when there was no payload; otherwise it is the old pointer, which still leads there if and only if realloc has not moved the message, as is guaranteed for an external buffer and for an unchanged length. |
| `CoapPdu.CoapPDU.SetPayload` | coap-eap-controller/src/cantcoap-master/cantcoap.cpp:1400-1416 | The message is head, marker and the new payload whenever the pointer of mallocPayload leads into it; that is guaranteed when there was no payload, or the buffer is external or the length unchanged and the old pointer led there, and otherwise depends on whether realloc has moved the message. |
| `CoapPdu.CoapPDU.Validate` | coap-eap-controller/src/cantcoap-master/cantcoap.cpp:212-372 | Accepts exactly the messages on which header checks and walk succeed, and records number of options and payload. |
| `CoapPdu.CoapPDU.GetOptions` | coap-eap-controller/src/cantcoap-master/cantcoap.cpp:1103-1146 | Returns exactly the options that validate has counted, with their positions, lengths and numbers. |
| `PduWalk.WalkTiles` | coap-eap-controller/src/cantcoap-master/cantcoap.cpp:280-372 | The options of an accepted message tile it from the token to the marker or the end, and the payload is what follows the marker. |
| `PduWalk.TiledInside` | coap-eap-controller/src/cantcoap-master/cantcoap.cpp:1103-1146 | Every value slice of the options found lies inside the message. |
| `PduWalk.WalkIsDecode` | coap-eap-controller/src/cantcoap-master/cantcoap.cpp:280-372 | The walk accepts without a 16-bit wrap exactly the messages that RFC 7252 decodes to 16-bit numbers and lengths, and then finds the same options and payload. |
| `CoapPdu.CoapPDU.CopyOptions` | coap-eap-controller/src/cantcoap-master/cantcoap.cpp:1371-1384 | All options of an accepted message are inserted into this one; the other one is not changed. |
| `CoapPdu.CoapPDU.SetURI` | coap-eap-controller/src/cantcoap-master/cantcoap.cpp:444-524 | The options that the scan of the text finds are inserted. |
| `UriText.PathOptions` | coap-eap-controller/src/cantcoap-master/cantcoap.cpp:444-524 | "/" and a path of non-empty segments without separators becomes one Uri-Path option for each segment. |
| `CoapPdu.CoapPDU.GetLocation` | coap-eap-controller/src/cantcoap-master/cantcoap.cpp:602-709 | The destination holds the gathered path and query text and a NUL, or status 1 says that it does not fit. |
| `CoapPdu.CoapPDU.GetURI` | coap-eap-controller/src/cantcoap-master/cantcoap.cpp:724-831 | The same for the Uri-Path and Uri-Query options. |
| `UriText.GatherLocation` | coap-eap-controller/src/cantcoap-master/cantcoap.cpp:602-709 | Gathering Location-Path segments gives "/" and the segments joined by "/" if and only if the text and two more bytes fit. |
| `ErbiumPacket.IntRoundTrip` | contiki/apps/er-coap-13/er-coap-13.c:86-166 | A 32-bit value written in as few bytes as it needs is read back. |
| `ErbiumPacket.Log2Bounds` | contiki/apps/er-coap-13/er-coap-13.c:73-82 | The logarithm of a positive value is its exponent: 2 to it is not above the value, twice that is. |
| `ErbiumWriter.LogTwo` | contiki/apps/er-coap-13/er-coap-13.c:73-82 | The shift loop computes that logarithm. |
| `ErbiumWriter.SetOptionHeader` | contiki/apps/er-coap-13/er-coap-13.c:118-143 | The header bytes of an option as RFC 7252 defines them, and nothing else, are written. |
| `ErbiumWriter.SerializeIntOption` | contiki/apps/er-coap-13/er-coap-13.c:147-166 | The encoding of an integer option is written, and nothing else. |
| `ErbiumWriter.SerializeParts` | contiki/apps/er-coap-13/er-coap-13.c:170-210 | The encoding of one option for each part of the text is written, and nothing else. |
| `SplitMerge.MergeIsJoin` | contiki/apps/er-coap-13/er-coap-13.c:214-234 | Merging parts one by one onto a non-empty part joins all of them with the separator. |
| `SplitMerge.JoinParts` | contiki/apps/er-coap-13/er-coap-13.c:170-210 | Joining the parts gives back the text, without its last byte exactly when a splitter dangles there. |
| `SplitMerge.DanglesParity` | contiki/apps/er-coap-13/er-coap-13.c:170-210 | A splitter dangles if and only if the run of splitters at the end of the text has odd length. |
| `SplitMerge.RoundTripIff` | contiki/apps/er-coap-13/er-coap-13.c:170-234 | Merging the parts of a text gives the text back if and only if it is empty, or does not start with the splitter and ends in an even run of splitters. |
| `ErbiumRoundTrip.RunField` | contiki/apps/er-coap-13/er-coap-13.h:266-313 | The options written for a field set that field on reading, to what comes back of it, and no other. |
| `ErbiumParse.ParseIsDecode` | contiki/apps/er-coap-13/er-coap-13.c:469-655 | On every option part that RFC 7252 decodes with numbers below 40, the parser finds the same options and the same payload, cut to a chunk. |
| `ErbiumWriter.SerializeMessage` | contiki/apps/er-coap-13/er-coap-13.c:309-405 | The buffer holds the datagram of header, token, sorted options and payload, or the length is 0 because the front part is too long. |
| `ErbiumMessage.WrittenDecodes` | contiki/apps/er-coap-13/er-coap-13.c:309-405 | A written datagram is well formed by RFC 7252 and decodes to the header, token, options and payload of the packet. |
| `ErbiumReader.StoreMerged` | contiki/apps/er-coap-13/er-coap-13.c:214-234 | Moving a repeated value down behind its slice changes that field to the merged text, no other field, and no byte still to be read. |
| `ErbiumReader.CoapPacket.MergeMultiOption` | contiki/apps/er-coap-13/er-coap-13.c:214-234 | After a merge the slice reads as the parts joined by the separator; other fields and the bytes behind the option are untouched. |
| `ErbiumReader.CoapPacket.HandleOption` | contiki/apps/er-coap-13/er-coap-13.c:507-655 | The switch over the option number does to the fields, seen through the overwritten buffer, what the specification of one option says. |
| `ErbiumReader.CoapPacket.ParseMessage` | contiki/apps/er-coap-13/er-coap-13.c:423-661 | The struct, whose text fields are slices of the buffer that parsing overwrites, ends up as the specification says of the bytes that came in; at most one byte behind the datagram changes. |
| `ErbiumSetters.SetLocationPath` | contiki/apps/er-coap-13/er-coap-13.c:960-982 | The path is stripped of leading slashes and split from its query at the first "?". |
| `ErbiumSetters.SetBlock` | contiki/apps/er-coap-13/er-coap-13.c:1047-1094 | Refuses sizes and numbers out of range; an accepted option survives the trip if and only if its size is a power of two. |
| `JourneyText.PartsOfPath` | contiki/apps/er-coap-13/er-coap-13.c:170-210 | The serializer cuts a path of clean segments into exactly these segments. |
| `Journey.Learn` | coap-eap-controller/src/mainserver.cpp:1280-1290 | The location buffer holds "/", the path that the device announced, and a NUL. |
| `Journey.Ask` | coap-eap-controller/src/mainserver.cpp:543-595 | The request the controller builds, with option 9 added after the path, has the stated header, token, options and payload. |
| `Journey.ThereAndBack` | coap-eap-controller/src/mainserver.cpp:543-595 | A path announced by the device as Location-Path, read by the controller, stored, and sent back as Uri-Path, with or without option 9, is recognised by the device as exactly this path, with token and payload. |
| `AesField.MacrosMultiply` | coap-eap-controller/src/aes.c:75-86 | The macros multiply by 2, 3, 9, 11, 13 and 14 in the field of section 4.2 of FIPS 197. |
| `AesTables.SboxIsInverse` | coap-eap-controller/src/aes.c:90-122 | Every entry of the first table is the affine map of the multiplicative inverse. |
| `AesTables.InvSboxSbox` | coap-eap-controller/src/aes.c:90-156 | The second table undoes the first. |
| `AesRounds.MixColumnsUndone` | coap-eap-controller/src/aes.c:400-457 | InvMixColumns undoes MixColumns on every state. |
| `AesRounds.ShiftRowsUndone` | coap-eap-controller/src/aes.c:369-398 | InvShiftRows undoes ShiftRows on every state. |
| `AesState.MixSubColumns` | coap-eap-controller/src/aes.c:406-428 | One fused pass over the state is SubBytes, then ShiftRows, then MixColumns. |
| `AesState.InvMixSubColumns` | coap-eap-controller/src/aes.c:435-457 | One fused pass is InvMixColumns, then InvShiftRows, then InvSubBytes. |
| `AesState.ShiftSubRows` | coap-eap-controller/src/aes.c:369-383 | Substitution and rotation of the rows in place is SubBytes, then ShiftRows. |
| `AesState.InvShiftSubRows` | coap-eap-controller/src/aes.c:385-398 | The same for the inverse. |
| `AesCipher.RoundsUndone` | coap-eap-controller/src/aes.c:526-603 | Any number of inverse rounds undoes as many rounds, for any round keys. |
| `AesCipher.DecryptEncrypt` | coap-eap-controller/src/aes.c:526-603 | The inverse cipher undoes the cipher on every block, for any round keys. |
| `Aes.AesContext.SetKey` | coap-eap-controller/src/aes.c:463-518 | Lengths of 16, 24 and 32 bytes, or the same in bits, give the key expansion of section 5.2 of FIPS 197; every other length is refused. |
| `Aes.AesContext.EncryptBlock` | coap-eap-controller/src/aes.c:526-551 | With a key, the output is the cipher of section 5.1 of FIPS 197; without one it is refused. |
| `Aes.AesContext.DecryptBlock` | coap-eap-controller/src/aes.c:577-602 | The same for the inverse cipher. |
| `AesCbc.CbcEncrypt` | coap-eap-controller/src/aes.c:555-569 | Output and final IV are the chain of the blocks, also when output and input are the same array; the rest of the output stays. |
| `AesCbc.CbcDecrypt` | coap-eap-controller/src/aes.c:606-621 | The same for decryption, in place or not. |
| `AesCbc.CbcUndone` | coap-eap-controller/src/aes.c:555-621 | What was enciphered under an IV deciphers to the plaintext, for any number of blocks, and both directions end with the same IV. |
| `EaxMath.DoubleBlock` | coap-eap-controller/src/eax.c:143-160 | The carry loop computes the doubled block. |
| `EaxMath.DoubleIsTimesX` | coap-eap-controller/src/eax.c:143-160 | Bit by bit, doubling multiplies by x modulo x^128 + x^7 + x^2 + x + 1. |
| `Eax.DoOmac` | coap-eap-controller/src/eax.c:177-258 | For every message whose padded form fits the buffer, the result is CMAC as in section 2.4 of RFC 4493. |
| `EaxMath.CountUpValue` | coap-eap-controller/src/eax.c:261-309 | Counting up the bytes adds one modulo 256 to the number of bytes. |
| `EaxMath.Increment` | coap-eap-controller/src/eax.c:261-309 | The loop over the counter bytes counts up. |
| `Eax.CounterValue` | coap-eap-controller/src/eax.c:261-309 | After n steps the counter is the nonce plus n modulo 2^128. |
| `Eax.DoCtr` | coap-eap-controller/src/eax.c:261-309 | Every byte has the byte of the encrypted counter of its block added, for any length. |
| `Eax.CtrTwice` | coap-eap-controller/src/eax.c:261-309 | Counter mode applied twice gives the data back. |
| `Eax.DoEax` | coap-eap-controller/src/eax.c:81-108 | Ciphertext and tag are counter mode and the sum of the three codes. |
| `Eax.OpenSeal` | coap-eap-controller/src/eax.c:81-108 | A sealed message opens to its data. |
| `UtHash.MaskIsRemainder` | coap-eap-controller/src/uthash.h:198-201 | For a number of buckets that is a power of two, the mask is the remainder of the hash value. |
| `UtHash.HashTable.Add` | coap-eap-controller/src/uthash.h:173-196 | The element is the last of the list and in the bucket of its hash value; both doubly linked structures, counts and tail stay right, also when the table expands. |
| `UtHash.HashTable.Find` | coap-eap-controller/src/uthash.h:94-105 | Returns an element with the key if and only if the table has one. |
| `UtHash.HashTable.Delete` | coap-eap-controller/src/uthash.h:215-248 | Exactly the element goes, and everything else keeps its order and its bucket; the only element may go too. |
| `UtHash.HashTable.Replace` | coap-eap-controller/src/uthash.h:163-171 | What had the key goes, the new element comes last, and keys stay distinct. |
| `UtHash.HashTable.AddToBkt` | coap-eap-controller/src/uthash.h:611-622 | The element joins its chain; the table expands, to twice the buckets, if and only if the bucket is then at its threshold and expansion has not been given up. |
| `UtHash.ShiftedCeiling` | coap-eap-controller/src/uthash.h:679-681 | The shift and the mask by which the macro rounds up are quotient and remainder. |
| `UtHash.HashTable.Expand` | coap-eap-controller/src/uthash.h:666-712 | Twice the buckets with the same elements, each in the bucket of its hash value; the ideal chain length is items over buckets, rounded up, and the elements beyond it are counted. |
| `UtHash.CeilingIs` | coap-eap-controller/src/uthash.h:652-664 | The ideal chain length is the ceiling of items divided by buckets. |
| `UtHash.HashTable.CountsAddUp` | coap-eap-controller/src/uthash.h:278-328 | The counts of all buckets add up to the number of items. |
| `HashSort.Srt` | coap-eap-controller/src/uthash.h:719-804 | The application order becomes the bottom-up merge sort of what it was, with prev, next, head and tail consistent; chains and buckets are untouched. |
| `HashSortSpec.SortIsStable` | coap-eap-controller/src/uthash.h:719-804 | From sorted runs of any size on, the passes give a sorted, stable permutation. |
| `HashSortSpec.SortFromOne` | coap-eap-controller/src/uthash.h:719-804 | The sort, started with runs of one element, is sorted, stable and a permutation, for every comparison that is a total preorder. |
| `HashSortSpec.MergesHalve` | coap-eap-controller/src/uthash.h:719-804 | Doubling the run size halves the number of merges, rounded up, which is why the loop ends. |
| `TaskList.Tasks.AddTask` | coap-eap-controller/src/mainserver.cpp:325-367 | A new task is appended behind the tail. |
| `TaskList.Tasks.GetTask` | coap-eap-controller/src/mainserver.cpp:294-323 | The oldest task is taken, or null exactly when the list is empty, although the tail pointer is stale then. |
| `TaskRuns.Execute` | coap-eap-controller/src/mainserver.cpp:294-367 | Over any run of adders and workers, the linked list holds exactly the queue of the run, and get_task returns exactly the tasks that the run dispatches, in order. |
| `TaskQueue.EveryRun` | coap-eap-controller/src/mainserver.cpp:993-1013 | In every interleaving of adders and workers: list length is semaphore plus hungry workers plus appended but not posted tasks; tasks leave in order; each is waiting, in one hand, or has run once; a woken worker finds a task. |
| `TaskQueue.NeverEmpty` | coap-eap-controller/src/mainserver.cpp:1002-1004 | A woken worker never finds the list empty, so it never runs the stale task of the round before. |
| `TaskQueue.Progress` | coap-eap-controller/src/mainserver.cpp:993-1013 | While a task is in the list, some adder can post or some worker can go on. |
| `AlarmList.Alarms.Add` | coap-eap-controller/src/lalarm.c:85-170 | A new alarm is linked in at its place, and the order by second is kept. |
| `AlarmList.Alarms.Take` | coap-eap-controller/src/lalarm.c:176-229 | The first alarm of a session and kind is unlinked, or nothing changes when there is none. |
| `AlarmList.Alarms.NextDue` | coap-eap-controller/src/lalarm.c:237-273 | The first alarm is taken exactly when its time has passed. |
| `AlarmOrder.AddBySecond` | coap-eap-controller/src/lalarm.c:85-170 | Adding keeps the list sorted by whole seconds. |
| `AlarmOrder.LessThanASecondLate` | coap-eap-controller/src/lalarm.c:237-273 | While the first alarm is not due, no alarm is overdue by a second. |
| `Retransmission.EveryRun` | coap-eap-controller/src/mainserver.cpp:843-872 | In every interleaving of handlers, alarm thread and tasks: alarms sorted by second, at most one alarm for a session, at most three retransmissions between resets, and a wait of RT_INIT doubled once for each. |
| `Retransmission.StepInv` | coap-eap-controller/src/mainserver.cpp:737-739 | Every step keeps these, also steps of sessions that have been removed. |
| `WellKnown.Handler` | contiki/apps/er-coap-13/er-coap-13-engine.c:318-493 | The buffer holds exactly the window of the link-format listing; the new offset is -1 exactly for a complete listing; 4.02 exactly behind its end. |
| `WellKnown.Steps` | contiki/apps/er-coap-13/er-coap-13-engine.c:318-493 | Windows at successive offsets put the listing together. |
| `WellKnown.EdgeIff` | contiki/apps/er-coap-13/er-coap-13-engine.c:455-492 | For windows of any size, the one that reaches the end of the listing says that this is all if and only if the last attributes do not end on its edge. |
| `WellKnown.StepsComplete` | contiki/apps/er-coap-13/er-coap-13-engine.c:486-492 | A run of windows that ends with -1 has delivered the whole listing. |
| `BlockTransfer.Response.ApplyBlocks` | contiki/apps/er-coap-13/er-coap-13-engine.c:139-195 | What the server makes of a response: a slice, a cut, a first block, or 5.01 for Block1, with fields, flag and payload. |
| `BlockTransfer.SlicesJoin` | contiki/apps/er-coap-13/er-coap-13-engine.c:139-195 | Slices 0 to k at one size up to a chunk join to the payload of a resource that ignores blocks, cut where slice k ends; the flag of slice k says whether that is all. |
| `BlockRequest.Run` | contiki/apps/er-coap-13/er-coap-13-engine.c:545-590 | Whatever replies arrive, the callback gets exactly those with the awaited number; a loop that ends normally has sent as many requests as it delivered blocks and counted failures. |
| `BlockRequest.DeliveredInOrder` | contiki/apps/er-coap-13/er-coap-13-engine.c:568-583 | The k-th block delivered came when k had been delivered, with number k. |
| `BlockRequest.OnceEach` | contiki/apps/er-coap-13/er-coap-13-engine.c:568-583 | Blocks are delivered once each and in the order of their numbers. |
| `ListingTransfer.Serve` | contiki/apps/er-coap-13/er-coap-13-engine.c:113-195 | The reply to a request for a block of the listing has the window of the listing as payload, and number, flag and size in its option. |
| `ListingTransfer.FetchListing` | contiki/apps/er-coap-13/er-coap-13-engine.c:527-593 | Client and server together: what the callback gets is the listing, in as many requests as it has chunks, and a complaint behind it exactly in the edge case named below. |
| `TransactionLayer.Layer.NewTransaction` | contiki/apps/er-coap-13/er-coap-13-transactions.c:77-95 | Refused if and only if four transactions are open; otherwise it takes the first free place as it was left, stale callback included, and is last in the list. |
| `TransactionLayer.Layer.Register` | contiki/apps/er-coap-13/er-coap-13-engine.c:549-550 | The place of an open transaction gets a callback; nothing else does that. |
| `TransactionLayer.Layer.SendTransaction` | contiki/apps/er-coap-13/er-coap-13-transactions.c:97-154 | Records the send; a confirmable message waits, the first time for a drawn interval and then twice as long, or is cleared and the callback of its place run; others are cleared. |
| `TransactionLayer.Layer.ClearTransaction` | contiki/apps/er-coap-13/er-coap-13-transactions.c:156-167 | The transaction leaves list and pool, the others stay, and so does its callback in the place. |
| `TransactionLayer.Layer.GetTransactionByMid` | contiki/apps/er-coap-13/er-coap-13-transactions.c:169-183 | Finds the first open transaction with the message id, or there is none. |
| `TransactionLayer.Layer.CheckTransactions` | contiki/apps/er-coap-13/er-coap-13-transactions.c:185-199 | The loop handles each expired transaction that was in the list, once, although sending may remove it. |
| `TransactionLayer.Layer.Answer` | contiki/apps/er-coap-13/er-coap-13-engine.c:240-251 | The answered transaction is cleared first, then the callback of its place runs; nothing else changes. |
| `TransactionLayer.Execute` | contiki/apps/er-coap-13/er-coap-13-transactions.c:77-199 | Pool, list and timers, changed in place over any steps, end in the state that the runs below are about. |
| `TransactionRuns.EveryRun` | contiki/apps/er-coap-13/er-coap-13-transactions.c:77-199 | In every run: the list is the allocated slots, at most four, without duplicates; a message goes out at most five times with waits T0, 2 T0, 4 T0, 8 T0, T0 between the timeout and 1.5 times it. |
| `TransactionRuns.EveryCallback` | contiki/apps/er-coap-13/er-coap-13-transactions.c:77-154 | In every run: a place holds the callback last registered there; whenever a transaction is answered or times out, that one runs; a callback meets the end of its own transaction at most once; and if none meets the end of another one, no callback runs twice. |
| `Callbacks.RunsAre` | contiki/apps/er-coap-13/er-coap-13-engine.c:240-251 | A callback has run once for each end of a transaction in the place where it was left, whether that transaction had registered it or none. |
| `PanaAvps.PaddingOctetString` | coap-eap-controller/src/panamessages.c:79-88 | The padding is below four and fills up to a multiple of four. |
| `PanaAvps.Aligned` | coap-eap-controller/src/panamessages.c:247-458 | Every AVP that is padded or has a value of whole words starts on a word. |
| `PanaAvps.GetAvp` | coap-eap-controller/src/panamessages.c:461-488 | On a message made of AVPs, finds the first AVP with the code, with its length and value, if and only if there is one. |
| `PanaMessage.TakeFlag` | coap-eap-controller/src/panamessages.c:94-121 | The AVP to insert is the first set flag in the order of the code; AUTH only when no other is left. |
| `PanaMessage.InsertAvps` | coap-eap-controller/src/panamessages.c:247-458 | For known flags, the only ones with which the loop ends (`EndsIff`), the message is the header with the right length, the AVPs in order, and AUTH last over the finished message. |
| `PanaMessage.HashAuth` | coap-eap-controller/src/panautils.c:381-411 | The value of the AUTH AVP becomes the hash of the message; without one the message is refused unchanged. |
| `PanaMessage.AllFinds` | coap-eap-controller/src/panamessages.c:461-488 | In a filled message a code is found if and only if its flag was set, with the value given; AUTH is the last AVP. |
| `PanaMessage.AllAligned` | coap-eap-controller/src/panamessages.c:247-458 | Every AVP of a filled message starts on a word. |
| `PanaMessage.FillAndFind` | coap-eap-controller/src/panamessages.c:247-488 | Filling and looking up: getAvp finds a code if and only if its flag was set, on a word boundary, with the value given; the value of AUTH is the hash of the whole message with that value zero. |
| `PanaRelay.RelayMessage` | coap-eap-controller/src/panamessages.c:123-229 | The relay message is a PRY header with the address AVP and the message AVP; other IP versions are refused. |
| `PanaRelay.RelayAndOpen` | coap-eap-controller/src/panamessages.c:123-229 | The two AVPs of a relay message give back address, port and the bytes of the inner message. |
| `OptionSlot.SlotRightIff` | coap-eap-controller/src/cantcoap-master/cantcoap.cpp:1666-1720 | insertOption writes the right option over every memory content **if and only if** delta and length are below 269. The two-byte branches store at the header byte. Input: delta 269, any value. |
| `OptionSlot.SlotKeepsStale` | coap-eap-controller/src/cantcoap-master/cantcoap.cpp:1666-1720 | With a wide delta or length one named byte of the slot keeps what was in memory. |
| `CoapPdu.RefusedThenAdded` | coap-eap-controller/src/cantcoap-master/cantcoap.cpp:1177-1205 | A refused append is counted. Input: an external buffer of six bytes, option 50 with three bytes, which is refused, then option 60 without value: the message decodes to option 10. The object keeps describing the message **if and only if** the refused number is not above all earlier ones (`AddOption`). |
| `PduWalk.WrapMisreads` | coap-eap-controller/src/cantcoap-master/cantcoap.cpp:1535-1583 | Delta and length are 16-bit, so an extension above 65266 wraps. Input: the option bytes E0 FF 00; the walk accepts two options where RFC 7252 has one of number 65549. `WalkIsDecode` is the exact condition. |
| `CoapPdu.TokenShiftInside` | coap-eap-controller/src/cantcoap-master/cantcoap.cpp:922-960 | setToken keeps the old length in eight bits: the arguments of its upward shift keep the precondition of `ShiftPDUUp` **if and only if** the message is below 256 bytes; from there on that shift is always taken and starts in front of the buffer. |
| `CoapPdu.SetTwice` | coap-eap-controller/src/cantcoap-master/cantcoap.cpp:1335-1367 | mallocPayload does not recompute its pointer after realloc. Two payloads set one after the other on a new message: the second one reaches the message **if and only if** realloc has not moved it in between, which only equal lengths guarantee. `SetPayload` has the condition for every message. |
| `ErbiumRoundTrip.FieldsRoundTripIff` | contiki/apps/er-coap-13/er-coap-13.c:170-234 | Reading the written options gives every field back **if and only if** every field survives: no path or query that starts with its separator or ends in an odd run of them, and block sizes that are powers of two. Input: path "a/". |
| `ErbiumMessage.PacketRoundTripIff` | contiki/apps/er-coap-13/er-coap-13.c:309-661 | Parsing undoes serializing for a whole packet **if and only if** its fields survive so and the payload has at most 64 bytes. |
| `ErbiumPacket.BlockRoundTrip` | contiki/apps/er-coap-13/er-coap-13.c:1047-1059 | A block option comes back with its number and flag; with its size **if and only if** that is a power of two. The setter accepts every size from 16 to 2048. |
| `ErbiumSetters.LocationSurvives` | contiki/apps/er-coap-13/er-coap-13.c:960-982 | A location that was set survives the trip **if and only if** an even run of "/" ends it. |
| `AlarmOrder.AddByTimeIff` | coap-eap-controller/src/lalarm.c:85-170 | difftime compares whole seconds. Adding keeps the list sorted by time **if and only if** no alarm shares the second, or the new one fits between the neighbours it gets. |
| `AlarmOrder.OutOfOrder` | coap-eap-controller/src/lalarm.c:85-170 | Input: an alarm for 5.0 s added to a list with one for 5.25 s is put behind it. |
| `Eax.TaggedFits` | coap-eap-controller/src/eax.c:81-108 | do_eax passes everything through the 150-byte buffer of do_omac: it fits **if and only if** the text has at most 128 bytes. |
| `BlockTransfer.SlicePlaceIff` | contiki/apps/er-coap-13/er-coap-13-engine.c:139-195 | A request for blocks larger than the chunk of 64 bytes is cut at the offset of the larger size but answered with the smaller one: the option names the place of the slice **if and only if** the size asked for is at most 64 or the number is 0. |
| `WellKnown.EdgeInput` | contiki/apps/er-coap-13/er-coap-13-engine.c:455-492 | Input: the listing </a>;title="abc" with windows of 16 bytes: the first window holds all of it, and the handler says that there is more. |
| `ListingTransfer.PartEnds` | contiki/apps/er-coap-13/er-coap-13-engine.c:455-492 | Blocks of any one size: when the last attributes end exactly on the edge of a block, and only then, one request more is made, and its answer, the complaint 4.02, is handed to the callback like a block. |
| `ListingTransfer.EdgeListing` | contiki/apps/er-coap-13/er-coap-13-engine.c:455-492 | Input: one resource with 59 bytes of attributes; its listing fills one block of 64 bytes and takes two requests. |
| `Callbacks.OnceIff` | contiki/apps/er-coap-13/er-coap-13-transactions.c:77-95 | coap_new_transaction does not clear the callback of the place it hands out. A callback runs at most once **if and only if** no transaction that has registered none is answered or times out in the place where it was left, or a single one when its own transaction went without either. |
| `Callbacks.NoneStraysIff` | contiki/apps/er-coap-13/er-coap-13-transactions.c:77-95 | No callback meets the end of another transaction **if and only if** every transaction that is answered or times out has registered one, or its place holds none: what a caller can look at before the answer is processed. |
| `TransactionRuns.ReuseRuns` | contiki/apps/er-coap-13/er-coap-13-engine.c:240-251 | Whenever the next free place holds a callback, a message of the server that is made, sent and acknowledged there runs it. |
| `TransactionRuns.RunsTwice` | contiki/apps/er-coap-13/er-coap-13-engine.c:545-552 | Input: a client request is answered in the first place, then a confirmable notification is sent and acknowledged there: the callback of the client runs twice. |
| `TransactionRuns.GivenUpIff` | contiki/apps/er-coap-13/er-coap-13-transactions.c:97-154 | A confirmable message is given up **if and only if** this was its fourth retransmission: it has been sent five times but has waited four times only, its transaction goes at once, and its callback runs. Section 4.2 of RFC 7252 has one wait more. |
| `PanaMessage.EndsIff` | coap-eap-controller/src/panamessages.c:273-450 | The loop of insertAvps ends **if and only if** all flags of its argument are among the nine that identifyAVP knows. |
| `PanaMessage.NeverEnds` | coap-eap-controller/src/panamessages.c:94-121 | Input: F_PACINF, a flag that panamessages.h defines: no number of turns brings the flags to zero. |
| `PanaMessage.CauseOrderIff` | coap-eap-controller/src/panamessages.c:422-425 | Termination-Cause is converted with a 16-bit ntohs: it is in network order **if and only if** it is zero. The causes of RFC 5191 are 1, 4 and 8. |
| `PanaRelay.RelayLengthIff` | coap-eap-controller/src/panamessages.c:150-215 | The length fields of the relay AVPs count the padding: right **if and only if** the inner message is a multiple of four; that of the address never is. |

## Findings

Properties one would expect that the code does not have. The last rows of the table above state each of them with
the exact condition under which it holds, for all inputs, or with an input on which it fails.

- `OptionSlot.SlotRightIff`, `OptionSlot.SlotKeepsStale`: `insertOption` and `setOptionDelta` write a wrong option as
  soon as a delta or a length needs two extension bytes (cantcoap.cpp:1666, 1704 and 1720).
- `PduWalk.WrapMisreads`: a two-byte extension above 65266 wraps, and `validate` then accepts options that are not in
  the message. For two-byte extensions it also reads up to two bytes behind the message, so its caller owes it these.
- `CoapPdu.TokenShiftInside`, `CoapPdu.TokenKeepsOptions`: replacing a token keeps the options below 256 bytes and for
  tokens of at most 8 bytes; a longer token is written but its length is not.
- `CoapPdu.SetTwice`, `CoapPdu.CoapPDU.SetPayload`: when `realloc` moves the message, a second payload of another
  length is copied into the memory that was given up.
- `CoapPdu.RefusedThenAdded`, `CoapPdu.CoapPDU.AddOption`: a refused append is counted as the last option, and the
  next one is written with a delta to a number that is not in the message.
- `ErbiumRoundTrip.FieldsRoundTripIff`, `ErbiumMessage.PacketRoundTripIff`, `ErbiumSetters.LocationSurvives`,
  `ErbiumPacket.BlockRoundTrip`: paths and queries that start or end with a separator, and block sizes that are not
  powers of two, do not come back from the device's own serializer.
- `AlarmOrder.AddByTimeIff`, `AlarmOrder.OutOfOrder`: the alarm list is sorted by whole second and not by time; an
  alarm may be handed out late, but by less than a second (`AlarmOrder.LessThanASecondLate`).
- `Eax.TaggedFits`: EAX takes texts and headers of at most 128 bytes; longer ones overrun the buffer of `do_omac`.
- `BlockTransfer.SlicePlaceIff`: blocks larger than a chunk are answered with numbers that name another place.
- `WellKnown.EdgeIff`, `WellKnown.EdgeInput`, `ListingTransfer.PartEnds`, `ListingTransfer.EdgeListing`: "BlockOutOfScope" is delivered as part of the listing
  when the last attributes end exactly at the edge of a chunk.
- `PanaMessage.CauseOrderIff`, `PanaRelay.RelayLengthIff`: byte order of Termination-Cause, and AVP lengths that
  count the padding.
- `Callbacks.OnceIff`, `Callbacks.NoneStraysIff`, `TransactionRuns.ReuseRuns`, `TransactionRuns.RunsTwice`: a place of
  the pool keeps the callback of its last client, and a later message of the server runs it again.
- `TransactionRuns.GivenUpIff`: a confirmable message is given up with its fourth retransmission, without the last
  wait.
- `PanaMessage.EndsIff`, `PanaMessage.NeverEnds`: an unknown flag is never taken away, and the loop does not end; two
  of the flags that the header defines are unknown in this sense.

## Left out

- CoapPdu.CoapPDU.AddOption: after a refusal only for numbers not below the refused one; below it the delta may wrap. It says what becomes of the message only while all deltas and lengths stay below 269, since the two-byte branches store at the header byte; what those leave in the slot is `InsertOption`, and that it is wrong is `SlotRightIff`.
- CoapPdu.CoapPDU.AddAll: the same limit, and only for a message in memory of its own, where no call can fail; in an external buffer each call may be refused (`AddOption`).
- CoapPdu.CoapPDU.SetURI: the same limits; what is left in an external buffer that fills up half way is not stated.
- CoapPdu.CoapPDU.SetToken: not for tokens of 256 bytes or more, nor for a change of length in a message of 256 bytes or more, where the shift leaves the buffer (`TokenShiftInside`).
- CoapPdu.CoapPDU.SetPayload: after a write through the stale pointer nothing is said of the bytes behind the marker, nor of the memory that was given up; a stale pointer into the middle of where the message is now, from a block that began elsewhere, counts as leading out of it.
- Options added after the payload has been set: the code has no check, and every caller adds them first.
- CoapPDU: header accessors for version, type, code and message id, printing, and refused allocations.
- ErbiumReader.CoapPacket.ParseMessage: asks for a datagram the parser reads without leaving it or its 40-bit option map; on others (`Outside`) it reads memory that is not modelled.
- ErbiumMessage.PacketRoundTripIff: without Proxy-Uri, which the parser refuses, and without a value for option 9, which the parser only notices.
- Capacity of the buffers that the caller passes: a precondition wherever the code does not check it.
- AesTables: the multiplication tables are functions by the macros that generate them; the S-box and its inverse are given value by value.
- Aes: the word-wide XOR of aes.c, whose word type is wider than 32 bits on 64-bit machines; the byte-wise version is modelled.
- Eax.DoOmac: asks for a message that fits the buffer, as the code does not check it; `TaggedFits` says which do.
- UtHash: the hash function is any function of the key; Bloom filter, HASH_SELECT and HASH_CLEAR are not modelled, nor are addresses of elements.
- Retransmission.EveryRun: which session a retransmission task serves is left open, because all tasks share one argument on the stack; sending, RADIUS and EAP are events of a run.
- AlarmOrder: times are real numbers, without the rounding of doubles; remove_alarm_coap_eap is not called by the controller and is not modelled.
- WellKnown.Handler: without a filter in the query.
- ListingTransfer.FetchListing: for listings of at most 2^20 - 1 chunks, the numbers a block option can carry, and without loss; with loss, `BlockRequest.Run` says what is delivered.
- Transactions: event timers are reduced to "running" and "expired"; a callback's own steps are further steps of the run; memb_alloc, whose source is not part of this model, takes the first free place and leaves its contents; whether a message is confirmable is given when its transaction is made, as every caller writes the packet before it sends.
- PanaMessage: HMAC is any function of key and message; memory is that of a little-endian machine.
- PanaMessage.InsertAvps: for known flags (`EndsIff`), and for messages below 65536 bytes, which the 16-bit length can tell.
- PanaAvps.GetAvp: for messages that are made of AVPs; on a malformed one the loop trusts the lengths it reads.
- PanaRelay.RelayMessage: the sending of the message.
- Sockets, RADIUS, the EAP state machine, configuration files, debug output, `coap_eap_statemachine.c`, which is not called, and `ltdl.c`: input and output, or code of other projects.
