# A verified model of the jmicro C client

This project models the parts of the client that turn values into bytes and back, and the tables and
pools around them, and proves what they promise.

The layers, bottom up:

- `Wire` – fixed-width integers as bytes, in both byte orders (`NET_DATA_BIG_END` is an arbitrary constant).
- `Ring` – the byte ring of `jm_buffer.c`: a class over an array, with `rpos`, `wpos` and the two status
  bits. Its meaning is a queue of bytes, `Contents()`. Everything above is stated over that queue, so it
  holds at every position of the ring and across the wrap.
- `ExtraMap`, `ExtraLookup`, `ExtraList`, `ExtraCodec` – the tagged key/value maps of `jm_msg.c`: their byte
  format with an independent parser, what a decoded map is (the original reversed at every level), lookup,
  the linked-list operations on heap nodes, and the encoder and decoder methods on a ring.
- `Message` – messages: the class with `Encode`, and `Decode`.
- `Framing` – cutting messages out of a stream, and the receive loop of `jm_client_winsocket.c`.
- `TreeCodec` – the typed trees of `jm_client.c`; `TreeDelivery` – when they arrive. `PubSubItem` – the
  pub/sub items with presence bits; `PubSubBits` – which left-over presence bits an item survives.
- `RpcTable` – who waits for which response. `Limiter` – heartbeat and login limits.
- `HashMap`, `HashWalk` – the chained hash map of `jm_mem.c` and its iterator. `PoolRuns`, `ObjectPool` –
  the object pool, as a state machine and on the heap.
- `WireForm` – the bytes themselves, in plain numbers: what a peer has to send and may expect.
- `Numbers` – the number printers and scanners of `jm_stdcimpl.c`.

Code that changes things in place is a class with methods. Each method is proved to do what a function of
the old state says. That function is then related to something independent of it: a parser, a finite map,
a run of a state machine, a bound.

## What the proofs show about the code

Some promises hold only under a condition. The condition is stated exactly, for all inputs:

- A string value longer than 127 bytes does not survive, in maps (`ExtraMap.StrValSurvivesIff`) or in trees
  (`TreeCodec.StrSurvivesIff`), because its length is an `int8`. Keys and topics have the full 16-bit range.
- A buffer value survives in a map if and only if it has 1 to 32767 bytes: the encoder accepts up to 65535,
  but the decoder reads the length as signed (`ExtraMap.BufValSurvivesIff`).
- A map the encoder writes comes back if and only if it has at most 255 entries and, at every level, only such
  maps, strings of at most 127 bytes and buffers of at most 32767 (`ExtraMap.ExtraSurvivesIff`).
- A message comes back unless it has no map but carries the map bit from before; `msg_encode` sets bit 4 and
  never clears it (`Message.FrameRoundTrip`).
- A map of exactly 512 bytes fills the encoder's buffer. The modular length then counts it as 0, and the
  message is readable only if its payload is empty (`Message.FullExtraBuffer`).
- An empty string as the last value of a map that just fills the buffer is dropped and still reported as
  written; the contract of `ExtraCodec.EncodeExtra` (through `Wrote` and `LooseMap`) says exactly when.
- `client_encodeExtra` reports success and the receiver gets the tree if and only if the tree can be coded, has
  no string of more than 127 bytes, and fits (`TreeDelivery.DeliveredIff`). Otherwise success may be reported
  all the same: over-long strings are cut short in the encoding itself, some length and count bytes are
  written unchecked, and a count that finds no room is taken for an empty collection
  (`TreeCodec.OnlyTheTag`). The report can be trusted in every room exactly for null pointers and for single
  values other than empty strings and strings of more than 127 bytes (`TreeCodec.TrustedIff`).
- An RPC callback runs twice if and only if its response arrives again while it is still running
  (`RpcTable.TwiceIffReenters`). Over all runs a request is lost, sent but neither answered nor waited for,
  if and only if a returning callback gives back an entry that by then belongs to another request
  (`RpcTable.LosesIffFreesOther`). That too takes a re-entrant response
  (`RpcTable.FreeingOtherNeedsReentrance`), and it happens (`RpcTable.ReentranceLosesARequest`).
- A request without a callback occupies a new entry exactly when it was sent and none was free
  (`RpcTable.NullCallbackLeaks`), and that entry is never free again (`RpcTable.NullCallbackLeaksForGood`).
- Presence bits of a pub/sub item are exact if and only if no bit of a missing field was set before
  serializing; the bits are never cleared (`PubSubItem.BitsExactIff`). An item with left-over bits still comes
  back if and only if these are bit 6, or bit 7 with map or binary data, and neither data nor any further byte
  follows (`PubSubBits.MarkedSurvivesIff`); an empty buffer is read as an empty map.
- Binary pub/sub data never comes back: the serializer writes its length, and the parser keeps that length, and
  all that follows, as data (`PubSubItem.ItemRoundTrip`, `PubSubBits.SurvivesIff`). The length is written
  unchecked, so one byte of data can be sent without it (`PubSubItem.PutBin`); and serializing takes the bytes
  out of the item (`PubSubItem.PsItem.Serialize`).
- The flag for UDP is lost when it would be the only entry of an item's context map: the caller does not store
  the node it gets (`PubSubItem.UdpEntries`).
- `extra_put` loses the entries in front of the one it changes, unless the key is new or the head's
  (`ExtraLookup.PutLosesNothingIff`).
- A ring that a chunk fills exactly is left stuck by the peek in `msg_readMessage`, because `bb_set_rpos`
  restores the position and not the status. The next chunk clears it (`Framing.RecvOne`). The variant with
  `bb_rmark` and `bb_rmark_reset` has no such case (`Framing.ReadMessageMarked`).
- The guard of `bb_rmark_reset` compares an unsigned field with -1 and never fires; a reset without a mark
  breaks the ring (`ByteRing.Ring.RMarkReset`). `bb_rmove_forward` by 0 empties a full ring, and by
  more than is queued it makes used places readable again (`ByteRing.Ring.MoveForward`).
- Zero padding is put before the sign, so a padded negative number is not read back
  (`Numbers.DecZeroPadRoundTripIff`). A printed hexadecimal zero before an `x` is taken for a prefix
  (`Numbers.HexRoundTripIff`).
- The login limiter takes a last time of 0 for "never". Attempts are an interval apart if and only if no
  login call at time 0 is followed by another one within the interval (`Limiter.LoginsApartIff`).

In one place the model departs from the code: the chain walk of `hashmap_remove` (src/jm_mem.c:106) starts
at the address of the bucket, which is no item. The model starts it at the item in the bucket, as the
branch for the first item (src/jm_mem.c:111-114) intends.

## Model

| member | source | states |
|---|---|---|
| Wire.UnsignedRoundTrip | src/jm_buffer.c:903-931 | The bytes of an n-byte unsigned number give it back, in either byte order |
| Wire.UnsignedOnto | src/jm_buffer.c:642-666 | Every byte string of that length is the encoding of the number it is read as |
| Wire.SignedRoundTrip | src/jm_buffer.c:933-935 | The same for two's complement |
| Wire.SignedOnto | src/jm_buffer.c:668-692 | Every byte string is the encoding of the signed number it is read as |
| Wire.ReadBack16 | src/jm_buffer.c:561-597 | A 16-bit value at the front of any bytes is read back, signed and unsigned, leaving the rest |
| Wire.ReadBack32 | src/jm_buffer.c:599-640 | The same for 32 bits |
| Wire.ReadBack64 | src/jm_buffer.c:642-692 | The same for 64 bits |
| WireForm.ByteOrder | src/jm_buffer.c:819-931 | Which byte stands where, for 2, 4 and 8 bytes in both byte orders, by division and remainder |
| WireForm.TwosComplement | src/jm_buffer.c:838-935 | A negative number is sent as itself plus 256, 2^16, 2^32 or 2^64 |
| ByteRing.WindowGrows | src/jm_buffer.c:709-736 | Storing a byte at the write position appends it to the window of queued bytes, wherever that wraps |
| ByteRing.WindowDrop | src/jm_buffer.c:293-306 | Moving the read position on by k drops the first k queued bytes |
| ByteRing.StringRoundTrip | src/jm_buffer.c:393-480 | Every string of 0 to 65535 bytes is read back whatever follows; the 1, 3 and 7 byte prefixes are never confused |
| WireForm.StringForm | src/jm_buffer.c:393-441 | The three length prefixes in bytes, the boundaries at 127 and 32767 included |
| WireForm.StringByteRead | src/jm_buffer.c:443-480 | Any first byte but 127, even one above it, is read as the length itself |
| ByteRing.Ring.constructor | src/jm_buffer.c:54-78 | A new ring is an empty queue |
| ByteRing.Ring.Clear | src/jm_buffer.c:44-52 | Clearing gives an empty queue from any state, even a broken one |
| ByteRing.Ring.Accounting | src/jm_buffer.c:188-276 | Readable plus writeable is the capacity; empty and full are exactly the extreme cases; the write position is the read position plus the length, round the ring |
| ByteRing.Ring.StuckRefusesAll | src/jm_buffer.c:147-151 | With equal positions and neither status bit the ring refuses every non-empty read and write |
| ByteRing.Ring.RMark | src/jm_buffer.c:121-128 | A mark records position and status |
| ByteRing.Ring.MarkedHolds | src/jm_buffer.c:121-128 | A fresh mark remembers the present queue |
| ByteRing.Ring.RMarkReset | src/jm_buffer.c:130-145 | Resetting restores the remembered queue after any reads; it never refuses, and without a mark it leaves the ring invalid |
| ByteRing.Ring.SetRPos | src/jm_buffer.c:147-151 | Only the position changes, not the status |
| ByteRing.Ring.Take | src/jm_buffer.c:214-232 | Takes the oldest byte off the queue; from an empty ring, which it does not check, whatever is stored there, and the ring is broken |
| ByteRing.Ring.GetU8 | src/jm_buffer.c:329-336 | Reads the oldest byte, or changes nothing |
| ByteRing.Ring.GetS8 | src/jm_buffer.c:338-345 | The same as a signed byte |
| ByteRing.Ring.GetBool | src/jm_buffer.c:347-354 | The same as a truth value |
| ByteRing.Ring.GetBytes | src/jm_buffer.c:367-391 | Takes exactly the first n bytes, or refuses and changes nothing |
| ByteRing.Ring.GetU16 | src/jm_buffer.c:561-578 | Reads the number the first two bytes encode, or changes nothing |
| ByteRing.Ring.GetS16 | src/jm_buffer.c:580-597 | The same, signed |
| ByteRing.Ring.GetU32 | src/jm_buffer.c:620-640 | The same for four bytes |
| ByteRing.Ring.GetS32 | src/jm_buffer.c:599-618 | The same, signed |
| ByteRing.Ring.GetU64 | src/jm_buffer.c:642-666 | The same for eight bytes |
| ByteRing.Ring.GetS64 | src/jm_buffer.c:668-692 | The same, signed |
| ByteRing.Ring.ReadString | src/jm_buffer.c:443-480 | Reads the string at the front, if one is there, and leaves exactly what follows; when only characters are missing, it fails and the length is gone |
| ByteRing.Ring.PutU8 | src/jm_buffer.c:709-736 | Appends the byte if and only if there is room |
| ByteRing.Ring.PutS8 | src/jm_buffer.c:738-765 | Appends a signed byte as its pattern |
| ByteRing.Ring.PutBytes | src/jm_buffer.c:767-809 | Appends all bytes or none; even no bytes are refused by a full ring |
| ByteRing.Ring.PutU16 | src/jm_buffer.c:819-836 | Appends the two bytes of the number, or changes nothing |
| ByteRing.Ring.PutS16 | src/jm_buffer.c:838-856 | The same, signed |
| ByteRing.Ring.PutU32 | src/jm_buffer.c:858-879 | The same for four bytes |
| ByteRing.Ring.PutS32 | src/jm_buffer.c:881-901 | The same, signed |
| ByteRing.Ring.PutU64 | src/jm_buffer.c:903-931 | The same for eight bytes |
| ByteRing.Ring.PutS64 | src/jm_buffer.c:933-935 | The same, signed |
| ByteRing.Ring.WriteString | src/jm_buffer.c:393-441 | Appends prefix and characters; fails exactly when they do not fit (the empty string needs a byte to spare) and then leaves a prefix of them |
| ByteRing.Ring.PutBuf | src/jm_buffer.c:780-791 | Appends the whole source in order and empties it, or changes neither |
| ByteRing.Ring.GetBuf | src/jm_buffer.c:483-498 | Moves exactly the first n bytes; those the destination has no room for are lost |
| ByteRing.Ring.MoveForward | src/jm_buffer.c:293-306 | For any n: skipping n queued bytes drops the first n; skipping none of a full ring empties it; skipping more leaves readable what is left of a round, nothing after whole rounds, or breaks an empty ring unless by whole rounds |
| ByteRing.Ring.GetByIndex | src/jm_buffer.c:553-559 | The i-th queued byte, without reading |
| ExtraMap.StrValSurvivesIff | src/jm_msg.c:544-573 | A string value comes back if and only if it has at most 127 bytes |
| ExtraMap.BufValSurvivesIff | src/jm_msg.c:483-581 | A buffer of up to 65535 bytes comes back, with what follows left over, if and only if it has 1 to 32767 bytes |
| ExtraMap.EntriesRoundTrip | src/jm_msg.c:586-658 | The decoder, prepending, puts the entries in reverse in front of what it holds |
| ExtraMap.ExtraRoundTrip | src/jm_msg.c:664-762 | Any map of 1 to 255 entries at any depth comes back reversed at every level, and exactly its bytes are consumed |
| ExtraMap.ExtraSurvivesIff | src/jm_msg.c:586-762 | A map the encoder writes comes back, with what follows left over, if and only if counts, strings and buffers are within those limits at every level |
| ExtraMap.MirrorTwice | src/jm_msg.c:652-653 | Two round trips give the original map, null strings and buffers becoming null values |
| ExtraMap.MirrorAt | src/jm_msg.c:586-658 | By index: the decoded map has as many entries, the i-th from the end has the key of the i-th, and its value, mirrored if it is a map |
| WireForm.ScalarForm | src/jm_msg.c:483-581 | The tag and the bytes of every value without length |
| WireForm.StrForm | src/jm_msg.c:544-573 | The bytes of a string value of any length: the length modulo 256, and as many characters as that byte says, none from 128 on |
| WireForm.BufForm | src/jm_msg.c:483-497 | The tag, 16-bit length and bytes of a buffer |
| WireForm.MapForm | src/jm_msg.c:664-762 | Count, 0 or 1 for the kind of key, then key and value of each node; as a value with a tag and string keys |
| WireForm.StringValueRead | src/jm_msg.c:415-458 | A string value in the form of a key is read back at any length, in maps and in trees |
| ExtraMap.CodableIs | src/jm_msg.c:483-581 | The encoder gives up on an empty buffer, a null map, and a map it gives up on, and on no other value |
| ExtraMap.CodableEach | src/jm_msg.c:664-762 | A map it encodes has only values it encodes |
| ExtraMap.CodableAll | src/jm_msg.c:664-762 | and it encodes every such map |
| WireForm.ReadForm | src/jm_msg.c:318-481 | What is accepted beyond that: other truth values, null strings and buffers, no map |
| ExtraLookup.LookupSurvivesTheWire | src/jm_msg.c:60-117 | With distinct keys a lookup in the decoded map finds what it finds in the original |
| ExtraLookup.MirrorKeepsDistinct | src/jm_msg.c:652-653 | Decoding keeps keys distinct |
| ExtraLookup.PutKeepsDistinct | src/jm_msg.c:71-96 | Storing keeps keys distinct and the value stored is the one found |
| ExtraLookup.PutLosesNothingIff | src/jm_msg.c:71-96 | Other entries are still found if and only if the key is new or the head's |
| ExtraLookup.PutLastLookup | src/jm_msg.c:157-182 | Storing under a string key changes that key's value and no other |
| ExtraLookup.PutLastDistinct | src/jm_msg.c:157-182 | and keeps keys distinct |
| ExtraLookup.JoinLookup | src/jm_msg.c:765-775 | After a join, lookup prefers the first map and falls back to the second |
| ExtraLookup.FirstOrNowhere | src/jm_msg.c:60-117 | A key has a first node unless no node has it |
| ExtraLookup.FoundAt | src/jm_msg.c:60-96 | By index: lookup answers the first node with the key, and storing gives a node with the new value and what followed that node |
| ExtraLookup.NotFound | src/jm_msg.c:60-96 | A key that is nowhere is not found, and storing it puts a node in front |
| ExtraLookup.PutLastAt | src/jm_msg.c:157-182 | By index: the first node with the key, or a new last one, gets the value, and every other node stays |
| ExtraLookup.JoinAt | src/jm_msg.c:765-775 | By index: the nodes of the first map, then those of the second |
| ExtraList.Find | src/jm_msg.c:60-117 | On heap nodes: the first node with the key, with the chain from it on, or null exactly when the key is missing |
| ExtraList.Put | src/jm_msg.c:71-96 | The node returned heads the chain that Put of ExtraLookup describes |
| ExtraList.PutString | src/jm_msg.c:157-182 | The header's chain becomes what PutLast describes; the caller gets the node |
| ExtraList.PullAll | src/jm_msg.c:765-775 | Relinking the last node makes one chain holding both maps in order |
| ExtraCodec.EncodeStr | src/jm_msg.c:544-573 | What a string value leaves in the ring and reports, for any room |
| ExtraCodec.EncodePayload | src/jm_msg.c:483-581 | The same for every kind of value |
| ExtraCodec.EncodeExtra | src/jm_msg.c:664-762 | For any room: the bytes appended, the result, and the length reported, which is the number of bytes appended except that a whole capacity counts as 0 |
| ExtraCodec.LooseIff | src/jm_msg.c:544-573 | A value whose last byte is written unchecked is one whose last leaf is a string with length byte 0 or negative |
| ExtraCodec.Distance | src/jm_msg.c:749-754 | The modular difference of two write positions is the number of bytes between them, except for a whole capacity |
| ExtraCodec.DecodePayload | src/jm_msg.c:318-481 | On a ring: reads exactly what the parser reads |
| ExtraCodec.DecodeExtra | src/jm_msg.c:586-658 | On a ring: the map the parser reads, consuming the same bytes; the recursion ends because bytes are used up |
| Message.SetLengthType | src/jm_msg.c:1171-1178 | Sets or clears bit 0 of the flag word and no other |
| Message.SetExtraFlag | src/jm_msg.c:1007-1009 | Sets or clears bit 4 and no other |
| Message.HeaderRoundTrip | src/jm_msg.c:1246-1302 | Flag word, type, id and either form of the length are read back, whatever follows |
| Message.FrameRoundTrip | src/jm_msg.c:1246-1344 | A message is read back and following bytes are left, if and only if it is not one without map but with the map bit |
| Message.FieldsSurvive | src/jm_msg.c:1346-1462 | Type, id, flag entry, payload and the flag word except bits 0 and 4 are those sent; the map is the reversed one with the flag entry behind it |
| WireForm.FrameForm | src/jm_msg.c:1346-1462 | The bytes of a message in order, with the length of map and payload in two bytes up to 32767 and in four above, and the size of the whole |
| WireForm.SentFlagForm | src/jm_msg.c:1371-1385 | The flag word as sent: bit 0 for the long length, bit 4 for a map, all others as they were |
| WireForm.PackForm | src/jm_msg.c:1360-1375 | Which maps can be packed apart: up to 512 bytes, or 513 ending in the length byte of a string without characters; the length counted for them is their size, or 0 from 512 on |
| WireForm.FlagEntry | src/jm_msg.c:1355-1358 | A flag entry other than 0 heads the map under the key -118, and is read from there |
| Message.SentIsFrame | src/jm_msg.c:1304-1333 | Length accounting: the modular length is the number of map bytes, so the encoder's output is the message's frame |
| Message.FullExtraBuffer | src/jm_msg.c:1362-1384 | A map of exactly 512 bytes is counted as none, and the message is read back if and only if it has no payload |
| Message.Msg.Prepare | src/jm_msg.c:1346-1385 | Flag entry put into the map, map packed apart, both bits and the length worked out |
| Message.Msg.Encode | src/jm_msg.c:1346-1462 | For any room: what is written and reported; a payload that does not fit is silently left out |
| Message.GetHeader | src/jm_msg.c:1246-1302 | On a ring: the fixed fields the parser reads, with the rest of the message left to read |
| Message.Decode | src/jm_msg.c:1246-1344 | On a ring: the message the parser reads, consuming the same bytes |
| Message.Trip | src/jm_msg.c:1246-1462 | Encoding into an empty ring at any position and decoding again gives the message received, and empties the ring |
| Framing.CutInSteps | src/jm_msg.c:1464-1565 | Cutting as bytes arrive gives the same frames and rest as cutting all at once, for any bytes |
| Framing.ChunkIndependence | src/testcase/jm_client_winsocket.c:89-113 | For any stream and any split into chunks, put-then-drain yields what one chunk would |
| Framing.PrefixOfStream | src/jm_msg.c:1464-1565 | Of any part of a stream of frames, the first frames are delivered in order and a strict prefix of the next remains |
| Framing.WholeStream | src/jm_msg.c:1464-1565 | The whole stream delivers every frame and leaves nothing |
| Framing.MessageIsFrame | src/jm_msg.c:1412-1462 | The header of an encoded message tells exactly its length, in both forms |
| Framing.ReadMessage | src/jm_msg.c:1464-1565 | Null and no change without a complete frame, the message of the frame otherwise; a full ring ends up stuck |
| Framing.ReadMessageMarked | src/jm_buffer.c:121-145 | With a mark in place of the remembered position there is no condition on a full ring |
| Framing.Drain | src/testcase/jm_client_winsocket.c:97-113 | Hands over every complete message in order and leaves the unfinished rest; it ends because each takes at least 13 bytes |
| Framing.RecvOne | src/testcase/jm_client_winsocket.c:78-117 | The three cases of a chunk: too big, exactly filling, drained |
| Framing.ReceiveRun | src/testcase/jm_client_winsocket.c:78-117 | Over a whole run the ring and the messages handed over are those of the pure run |
| Framing.MessagesSurviveChunking | src/testcase/jm_client_winsocket.c:89-113 | For any list of encoded messages and any split, exactly those messages arrive, in order |
| Framing.UnfinishedPart | src/testcase/jm_client_winsocket.c:89-113 | At any time the rest is exactly the unfinished part of the next message |
| Framing.StreamIsFeasible | src/testcase/jm_client_winsocket.c:89-113 | Encoded messages in chunks that never fill the ring are all the receive loop needs |
| Framing.DeliverAll | src/testcase/jm_client_winsocket.c:78-117 | End to end on the ring: the messages handed over are those encoded, one by one, and the ring is empty |
| TreeCodec.StrSurvivesIff | src/jm_client.c:2316-2343 | A string comes back, whatever follows, if and only if it has at most 127 bytes |
| TreeCodec.BufRoundTrip | src/jm_client.c:2235-2364 | Buffers of 1 to 65535 bytes come back |
| TreeCodec.ChainRoundTrip | src/jm_client.c:1921-1994 | Maps and collections come back in the same order, collection keys dropped |
| TreeCodec.TreeRoundTrip | src/jm_client.c:1996-2157 | A tree of any depth comes back, up to null pointers becoming null nodes, and exactly its bytes are consumed |
| TreeCodec.NormalTwice | src/jm_client.c:1996-2157 | What was received is sent and received again unchanged |
| TreeCodec.NormalKeeps | src/jm_client.c:1996-2157 | What arrives has the type that was sent, null pointers excepted: a list stays a list, a set a set, and a value that is no collection is the same |
| TreeCodec.EntriesKept | src/jm_client.c:1921-1965 | By index: a map or proxy arrives with as many entries, the i-th with its key and its value |
| TreeCodec.ItemsKept | src/jm_client.c:1967-1994 | By index: a list or set arrives with as many elements, the i-th with its value and without key |
| WireForm.TreeScalarForm | src/jm_client.c:2235-2364 | The tag and bytes of every single value, and of null pointers |
| WireForm.TreeStrForm | src/jm_client.c:2259-2343 | Strings and buffers have the bytes they have in maps |
| WireForm.TreeKeyedForm | src/jm_client.c:2204-2233 | The tag and 16-bit count of maps and proxies |
| WireForm.TreePlainForm | src/jm_client.c:2161-2202 | The same for lists and sets |
| WireForm.TreeLinkForm | src/jm_client.c:2179-2233 | Each element is a key, in maps and proxies only, then a value |
| WireForm.TreeReadForm | src/jm_client.c:1996-2157 | What is accepted beyond that; a negative length byte stands for a length above 65000 |
| TreeCodec.WholeIffFits | src/jm_client.c:2235-2364 | Success is reported with the whole encoding, in which over-long strings are cut short, if and only if the tree can be coded and the encoding fits |
| TreeCodec.TrustedIff | src/jm_client.c:2161-2364 | In every room reported success means that the receiver gets the tree, if and only if it is no map or collection, or a null pointer, and no string that is empty or has more than 127 bytes |
| TreeCodec.RoomLeftMeansWhole | src/jm_client.c:2161-2177 | Reported success with two bytes of room left means that the whole encoding, cut strings included, was written |
| TreeCodec.OnlyTheTag | src/jm_client.c:2161-2202 | Without that room it does not: a collection whose count finds no room is reported as written although only its tag was |
| TreeDelivery.DeliveredIff | src/jm_client.c:1996-2364 | In any room a ring can have, success is reported and the receiver gets the tree if and only if it can be coded, its strings have at most 127 bytes, and it fits |
| TreeDelivery.RoomLeftDelivers | src/jm_client.c:2161-2364 | With two bytes of room left, after reported success the receiver gets the tree if and only if its strings have at most 127 bytes |
| TreeCodec.Encode | src/jm_client.c:2235-2364 | On a ring, for any tree and any room: whether success is reported, and what was then appended; what was queued before stays in front |
| TreeCodec.EncodeColl | src/jm_client.c:2161-2233 | The same for a map or collection, count first |
| TreeCodec.DecodeLinks | src/jm_client.c:1921-1994 | Entries appended behind the tail come out in the order the parser reads them |
| TreeCodec.Decode | src/jm_client.c:1996-2157 | On a ring: the tree the parser reads; the mutual recursion ends because bytes are used up |
| TreeCodec.Trip | src/jm_client.c:1921-2364 | Through an empty ring at any position a tree comes back normalised |
| PubSubItem.MarkedBits | src/jm_client.c:1331-1339 | After serializing, a bit is set exactly when its field is there or the bit was set before |
| PubSubItem.BitsExactIff | src/jm_client.c:1082-1092 | Each bit is exact if and only if no bit of a missing field was set before |
| PubSubItem.ItemRoundTrip | src/jm_client.c:1098-1218 | With exact bits every field is rebuilt, missing ones as zero or null, maps reversed, and what follows is untouched; binary data comes back with its length in front and what follows behind |
| WireForm.DataBits | src/jm_client.c:1094-1096 | The type of the data is what stands in bits 5 and 6 of the flag, whatever the other bits |
| WireForm.DataForm | src/jm_client.c:1179-1218 | By those bits: type 1 takes all the bytes left, type 3 a map, types 0 and 2 a string |
| WireForm.DataKinds | src/jm_client.c:1402-1435 | Which data fits the type in those bits |
| WireForm.ItemBits | src/jm_client.c:1331-1339 | Which field each of the eight bits stands for |
| WireForm.ItemForm | src/jm_client.c:1323-1438 | The bytes of an item: bits, flag and sender, then the fields that are there in the order of their bits |
| WireForm.SerializedForm | src/jm_client.c:1323-1438 | When there is a buffer, in plain numbers: up to 255 bytes if an empty string is last, 257 if the last is the length byte of a string without characters, 256 otherwise, and what it then holds |
| WireForm.BinForm | src/jm_client.c:1404-1413 | What binary data leaves in a room of any size, in plain numbers |
| WireForm.UdpKeys | src/jm_msg.h:116-118 | The keys of the entries for UDP, as text |
| PubSubBits.SurvivesIff | src/jm_client.c:1098-1218 | With bits for all its fields, and possibly more, an item and any bytes behind it come back if and only if it has no binary data and every left-over bit is harmless |
| PubSubBits.MarkedSurvivesIff | src/jm_client.c:1323-1438 | The same in terms of the bits the item had before it was serialized |
| PubSubBits.Trip | src/jm_client.c:1098-1438 | Serialized and parsed, an item that fits and has no harmful bit left over comes back, maps reversed and the entries for UDP added |
| PubSubItem.StaleBitBreaks | src/jm_client.c:1331-1339 | An item with a leftover id bit and no optional field cannot be read |
| PubSubItem.PsItem.MarkFields | src/jm_client.c:1331-1339 | The bits recorded in the item |
| PubSubItem.PutBin | src/jm_client.c:1404-1413 | What binary data leaves and reports for any room: length and bytes, nothing for an empty buffer without room for the length, or a single byte without length |
| PubSubItem.SerializedIff | src/jm_client.c:1323-1438 | Without binary data a buffer is made if and only if the maps can be coded and the encoding fits 256 bytes, where a last empty string asks for one more and an unchecked last byte for one less; it holds the first 256 bytes of the encoding |
| PubSubItem.PsItem.Serialize | src/jm_client.c:1323-1438 | For any item: the bits recorded, whether there is a buffer and what it holds, and binary data used up |
| PubSubItem.ReadFields | src/jm_client.c:1098-1218 | On a ring: the item the parser reads |
| PubSubItem.ParseBin | src/jm_client.c:1098-1241 | The same with the entries for UDP put into its context map |
| PubSubItem.UdpKeepsOthers | src/jm_client.c:1224-1240 | Putting them there changes no other entry and keeps keys distinct |
| PubSubItem.UdpEntries | src/jm_client.c:1224-1240 | The address entries given are found, and the flag entry if and only if it is not the only one |
| RpcTable.RunKeepsAlways | src/jm_client.c:197-252 | Over any run at all: distinct live ids, each with its own callback, and responses only to the callbacks of their own requests |
| RpcTable.RunKeepsInv | src/jm_client.c:197-252 | Over any run without re-entrance also: each response at most once, and pending is issued less delivered less failed |
| RpcTable.InitInv | src/jm_client.c:197-252 | The empty table satisfies the invariant |
| RpcTable.RepeatedResponseIgnored | src/jm_client.c:728-735 | A response answered before finds no waiter |
| RpcTable.TwiceIffReenters | src/jm_client.c:728-763 | Over all runs: some callback runs twice if and only if a response arrives while its callback runs |
| RpcTable.LosesIffFreesOther | src/jm_client.c:728-763 | Over all runs: some request is lost if and only if some returning callback frees the entry of an unanswered request |
| RpcTable.FreeingOtherNeedsReentrance | src/jm_client.c:728-763 | and that takes a re-entrant response |
| RpcTable.ReentranceLosesARequest | src/jm_client.c:728-763 | A run in which it happens: the response to the second request finds no waiter |
| RpcTable.NullCallbackLeaks | src/jm_client.c:597-613 | A request without callback occupies a new entry exactly when it was sent and none was free |
| RpcTable.NullCallbackLeaksForGood | src/jm_client.c:213-252 | and over any further run that entry stays as it is |
| RpcTable.IssuedAre | src/jm_client.c:589-627 | Over any run the n-th message or request gets id n, with the callback it named, and fails exactly if it was not sent |
| RpcTable.ResponseReaches | src/jm_client.c:728-752 | A response to a live id runs the callback of that very request once more; one to any other id changes nothing |
| RpcTable.PendingGetsResponse | src/jm_client.c:728-763 | Over any run in which no callback frees an entry of another, a response to a request sent and not yet answered reaches its callback |
| RpcTable.ReturnFreesOwn | src/jm_client.c:247-252 | When that callback returns, its id alone is no longer waited for |
| RpcTable.GrowsIffFull | src/jm_client.c:213-245 | A request adds an entry to the table exactly when every entry is in use |
| RpcTable.WaitTable.Find | src/jm_client.c:197-211 | The newest entry with the id, on the linked list |
| RpcTable.WaitTable.Create | src/jm_client.c:213-245 | The newest free entry, or a new head marked in use |
| RpcTable.WaitTable.InvokeRpc | src/jm_client.c:589-627 | The table becomes what Registered says; the id is the next of the one counter |
| RpcTable.WaitTable.EndResponse | src/jm_client.c:247-252 | The entry is free again and nothing else changes |
| RpcTable.Client.OtherMessage | src/jm_msg.c:908 | Any other message takes an id too and leaves the table alone |
| RpcTable.Client.Request | src/jm_client.c:589-627 | A request is an Invoke step of the runs |
| RpcTable.Client.Arrive | src/jm_client.c:728-752 | A response is a Response step, starting the callback it adds to the deliveries |
| RpcTable.Client.Done | src/jm_client.c:247-252 | The return of a callback is a Return step, freeing its entry |
| Limiter.Client.SendHeartbeat | src/jm_client.c:127-134 | The heartbeat call is the Beat step, wrap-around subtraction included |
| Limiter.Client.OnMessage | src/jm_client.c:533-535 | Receiving a message is the Message step |
| Limiter.Client.TryLogin | src/jm_client.c:364-386 | The login call is the Login step, with its five results; rejected account and device ids still count as attempts |
| Limiter.BeatsApart | src/jm_client.c:127-134 | Over any run with a clock that never goes back, heartbeats are at least 30000 ms apart |
| Limiter.BeatAfterSilence | src/jm_client.c:535 | and at least 30000 ms after every earlier message |
| Limiter.BeatsIff | src/jm_client.c:127-134 | Over any run with such a clock a heartbeat is sent if and only if the clock shows 30000 ms, and 30000 ms have passed since every heartbeat and every message |
| Limiter.AttemptsIff | src/jm_client.c:364-376 | A login is attempted if and only if the client is not logged in and its last attempt, if there was one, was at time 0 or at least 30000 ms ago |
| Limiter.LoginsApartIff | src/jm_client.c:364-376 | Login attempts are at least 30000 ms apart if and only if no login call at time 0 is followed by another one before 30000 |
| Limiter.LoginAtZero | src/jm_client.c:370 | It happens: an attempt at 0 is forgotten |
| Limiter.RateBound | src/jm_client.c:127-134 | Any window of T ms holds at most T/30000 + 1 heartbeats, and under the condition of LoginsApartIff as many login attempts |
| HashMap.Map.constructor | src/jm_mem.c:168-183 | An empty map; capacity 0 becomes 11 |
| HashMap.Map.GetItem | src/jm_mem.c:26-37 | The item of the key in its chain, null exactly when the map lacks it |
| HashMap.Map.Get | src/jm_mem.c:132-139 | Map lookup |
| HashMap.Map.Exist | src/jm_mem.c:142-145 | Map membership |
| HashMap.Map.Put | src/jm_mem.c:39-89 | Map update, keeping every key once, in its own bucket, for any hash function |
| HashMap.Map.Remove | src/jm_mem.c:91-129 | Map deletion, with its result; size counts the keys |
| HashMap.Map.GrownOk | src/jm_mem.c:53-57 | A new head keeps every chain in order and loses no key |
| HashMap.Map.CutKeys | src/jm_mem.c:109-121 | Taking one item out of a chain removes its key and no other |
| HashMap.Map.BucketIs | src/jm_mem.c:62-65 | The bucket of a key is the remainder of its hash by the capacity |
| HashWalk.FlatIsMap | src/jm_mem.c:147-166 | The items in bucket order are the map's bindings, each exactly once, size of them |
| HashWalk.Cursor.Next | src/jm_mem.c:147-166 | The n-th call delivers the n-th of those items; after the last, every call answers null and delivers nothing |
| HashWalk.Walk | src/user/jm_ctrl.c:352-356 | A whole walk from a new iterator to the first null delivers the values of those items in order, size of them |
| HashWalk.Seek | src/jm_mem.c:154-160 | The loop over the buckets stops at the next non-empty one or the end |
| PoolRuns.RunTallies | src/jm_mem.c:205-338 | Over any run: no item sits in two slots or two caches, and the used flags are exactly what callers hold |
| PoolRuns.HandOutIsFree | src/jm_mem.c:263-309 | An item handed out is held by nobody, under any name, and belongs to one cache only |
| PoolRuns.NodesAreThePeak | src/jm_mem.c:238-259 | The nodes of a cache number exactly the most items ever out at one time |
| PoolRuns.CacheIffInit | src/jm_mem.c:205-236 | Over any run there is a cache of a name if and only if it was initialized |
| PoolRuns.InitAnswers | src/jm_mem.c:205-236 | Over any run Init answers true exactly the first time for a name |
| PoolRuns.GetAnswers | src/jm_mem.c:263-309 | Over any run Get gives an item exactly when the name was initialized and an item given before is back or a new one may be made; one that is back goes first |
| PoolRuns.BackAnswers | src/jm_mem.c:312-338 | Over any run Back answers true exactly for an item that some Get of that name gave |
| ObjectPool.Header.Get | src/jm_mem.c:276-309 | On the linked list: a free item or a new one, zeroed, other memory untouched; null exactly when none is free and none may be made |
| ObjectPool.Header.Back | src/jm_mem.c:325-337 | The item is marked free if it is the cache's own |
| ObjectPool.NamedPool.Init | src/jm_mem.c:205-236 | A new empty cache, refused for a name in use |
| ObjectPool.NamedPool.Get | src/jm_mem.c:263-309 | The pool makes the Get step of the runs; new memory is fresh |
| ObjectPool.NamedPool.Back | src/jm_mem.c:312-338 | The pool makes the Back step of the runs |
| Numbers.Dismantle | src/jm_stdcimpl.c:605-614 | The digits of a number, lowest first, and never more than the 24 characters there are |
| Numbers.IntToDec | src/jm_stdcimpl.c:600-632 | Writes padding, sign and digits as far as there is room, and nothing around them |
| Numbers.UintToHex | src/jm_stdcimpl.c:635-667 | The same in base 16, either case |
| Numbers.PrintedLength | src/jm_stdcimpl.c:600-667 | What is printed has length min(len, max(width, digits and sign)); the rest of the buffer stays |
| Numbers.DecToSigned | src/jm_stdcimpl.c:396-420 | The scanner consumes and reads what ScanSigned says, or nothing |
| Numbers.HexToUnsigned | src/jm_stdcimpl.c:479-505 | The scanner consumes and reads what ScanHex says, or nothing |
| Numbers.DecRoundTrip | src/jm_stdcimpl.c:396-420 | A space-padded decimal of any number and width is read back and the scan ends behind it |
| Numbers.PrintedDecScans | src/jm_stdcimpl.c:600-632 | In the buffer: what was printed with enough room is read back from where it was put |
| Numbers.PrintedHexScansIff | src/jm_stdcimpl.c:635-667 | The same for zero-padded hexadecimal, if and only if it is not a lone 0 before an x |
| Numbers.DecZeroPadRoundTripIff | src/jm_stdcimpl.c:615-626 | With zero padding it is read back if and only if it is not negative or there is no padding |
| Numbers.HexRoundTripIff | src/jm_stdcimpl.c:484-486 | Zero-padded hexadecimal of either case is read back if and only if it is not a lone 0 before an x |
| Numbers.DigitChars | src/jm_stdcimpl.c:635-667 | The sixteen digits in lower and upper case, and which characters the scanners take for digits |
| Numbers.SignedReads | src/jm_stdcimpl.c:396-420 | Blanks, an optional sign and any digits are read as that number, up to what follows |
| Numbers.HexReads | src/jm_stdcimpl.c:479-505 | Blanks, an optional 0x and any hexadecimal digits are read as that number, unless a lone 0 stands before an x |
| Numbers.NothingReads | src/jm_stdcimpl.c:396-505 | Without a digit behind blanks and sign both scanners read nothing |
| Numbers.Itoa | src/jm_stdcimpl.c:226-242 | The buffer holds the decimal and a terminator; the rest stays |
| Numbers.Atoi | src/jm_stdcimpl.c:244-272 | Reads what AtoiOf says |
| Numbers.AtoiOfItoa | src/jm_stdcimpl.c:226-272 | What jm_itoa wrote, jm_atoi reads back, whatever is behind it |
| Numbers.AtoiReads | src/jm_stdcimpl.c:244-272 | Every int in decimal, behind blanks and an optional plus, is read as that int, whatever follows but a digit |
| Numbers.AtoiNothing | src/jm_stdcimpl.c:244-272 | Without a digit behind blanks and sign the answer is 0 |

## Left out

- Wrapped buffers (`wrap_buf`, `rw_flag`): `bb_put_u8` goes on to write its own array as well, so there is no one meaning to prove.
- Sockets, UDP, timers, threads, flash, GPIO and everything under `src/user`: the sender's result, the clock, received chunks and new memory are inputs.
- Allocation failure and the clean-up paths behind it: allocation succeeds and memory is collected, except that asking for a negative size, as for the buffers of more than 32767 bytes in ExtraMap.BufValSurvivesIff, or for more than 65535 characters fails.
- Strings that hold a NUL byte: strings are compared by all their bytes, while the readers in the source stop at the first NUL.
- Bytes no encoder writes: the decoders require what their parser accepts. Only the framing layer meets incomplete input. Where the tree parser gives up on an element, the source goes on without it, so the tree has fewer nodes than were sent.
- FLOAT, DOUBLE, DATE and unknown tags: no bytes are written or none are read for them.
- The buffer object behind binary pub/sub data: the item holds the bytes queued in it.
- PubSubItem.ParseBin: the two UDP entries and the flag it takes from the message's map are parameters; passing the item on to its listeners is not modelled.
- `client_unsubscribe`, login listeners, `kv_*`, logging, `jm_sprintf`, `jm_strtod` and the varargs code.
- The bits of `jm_hash32`: the hash map is proved for every hash function, and `key` strings are values.
- Maps and trees as heap nodes in the codecs: there they are values. ExtraList has the nodes.
- Chains that mix byte keys and string keys: `extra_get` would compare the unused byte key of a string node.
- The bits of `|` on shifted bytes in the 64-bit reads appear as sums, which they equal because the bytes do not overlap.
- The lowest int in `int_to_dec`: negating it overflows. `long` overflow of the scanners: numbers are unbounded there.
- Message ids beyond 2^31-1, and the cast of the id to the 32-bit wait table.
- TreeCodec.Encode: when failure is reported, it is not said which bytes were appended, only that those queued before stay in front.
- TreeCodec.EncodeColl: the same.
- ByteRing.Ring.ReadString: nothing is said of a queue in which the length itself is cut off; the source then uses a variable it has not set.
- HashMap.Map.Remove: models the walk from the item in the bucket, as described above.
- HashWalk.Cursor.Next: the bucket index is unbounded, so its wrap-around after 2^31 calls past the end is not modelled.
- Rings of capacity 0, and `jm_atoi` of a null pointer, which answers -1.
