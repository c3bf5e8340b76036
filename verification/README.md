# esp32-ble-uart-mx in Dafny

A model of the byte-level core of the ESP32 BLE multi-adapter (ble_uart_mx)
and the Python scripts that drive and test it. It covers both sides of the
link.

**Host side (Python):**
- The serial framing: 0x01 … 0x00 frames, cut out of a growing receive buffer.
- The routing of a frame by its marker byte to status, debug, central or peer
  callbacks.
- The outbound command and data frames.
- The earlier revision of the same adapter class. Its `send_cmd`, `reset`,
  `connect` and `send_data` (test/multi_connect.py:36-48) write the same
  bytes as the newer class's, so `MultiAdapter.SendCmd`, `Reset`, `Connect`
  and `SendData` model both. Its `reset` has no drain read, and it has no
  `send_data_to`.
- The stream validator of the receive test.
- The numbered echo messages of the long echo test, and their checks.

**Firmware side (C/C++):**
- The base64 codec and its size macros.
- The 32-bit FNV-1a hash and the 3-byte checksum trailer built on it.
- The extended-frame chunk header.
- The NeoPixel pulse table.
- The build-configuration header: its `#error` rules, forced options,
  derived sizes and the VARIANT string.

Python `bytes` are sequences of `byte` (an `int` subset 0..255). C
`uint8_t`/`uint32_t` are `bv8`/`bv32`, so the wrap-around of C arithmetic
modulo 2^8 and 2^32 is that of the bit-vector operations.

A Python exception the source lets escape (IndexError in routing,
ValueError from `int()` or `randrange`) is a value of the result: a
`raised` flag, `Routed.Raised`, or `None`. An error code returned by C is
`None` as well.

The script globals of test/receive.py and the attributes of `TestStream`
are immutable records. Each operation returns the next record. The no-op
callbacks of the adapter become a returned list of typed events.

## Modules

| file | module | models |
|---|---|---|
| options.dfy | Options | `Option` |
| words.dfy | Words | `u8`, `u32` |
| py_bytes.dfy | PyBytes | `bytes.find`, `split`, `join`, `strip()`, `b'%u'`, `int()` |
| framing.dfy | Framing | the find-start / find-end scan shared by every receive loop |
| multi_adapter.dfy | MultiAdapter | python/ble_multi_adapter.py |
| multi_connect.dfy | MultiConnect | test/multi_connect.py (index loop, slice tags) |
| receive.dfy | Receive | test/receive.py |
| test_stream.dfy | TestStream | `random_bytes` and `TestStream` of python/multi_echo_long.py |
| mx_encoding.dfy | MxEncoding | ble_uart_mx/mx_encoding.cpp and mx_encoding.h |
| fnv.dfy | FnvHash | ble_uart_mx/fnv_hash.h |
| checksum.dfy | Checksum | ble_uart_mx/checksum.h |
| xframe.dfy | XFrame | ble_uart_mx/xframe.h |
| neopix.dfy | NeoPix | `neopix_led_data_init` of ble_uart_mx/neopix.h |
| mx_config.dfy | MxConfig | ble_uart_mx/mx_config.h, with echo_master_config.h as an instance |

## Model

| member | source | states |
|---|---|---|
| PyBytes.Find | python/ble_multi_adapter.py:75-78 | `find` returns -1 or an index in the buffer at or after the start position |
| PyBytes.FindSpec | python/ble_multi_adapter.py:75-78 | `find` returns the first occurrence at or after the start, holding the byte searched for, and -1 exactly when no such byte exists |
| PyBytes.Split | test/receive.py:50 | `split` yields at least one field, and no field contains the separator |
| PyBytes.JoinSplit | test/receive.py:50 | joining the fields of a split with the separator rebuilds the input: split loses nothing |
| PyBytes.SplitJoin | python/ble_multi_adapter.py:57 | splitting a join of one or more separator-free fields gives back those fields |
| PyBytes.SplitThree | test/receive.py:50-51 | `a#b#c` with `#`-free parts splits into exactly the three fields |
| PyBytes.Strip | python/ble_multi_adapter.py:99 | `strip()` never lengthens, leaves no whitespace at either end, and turns all-whitespace input into empty |
| PyBytes.StripPadded | python/ble_multi_adapter.py:99 | `strip()` removes exactly the surrounding whitespace and keeps the text between it intact |
| PyBytes.StripIdempotent | python/ble_multi_adapter.py:99 | stripping twice is stripping once |
| PyBytes.Decimal | python/multi_echo_long.py:63 | `b'%u' % n` is a non-empty string of ASCII digits without a leading zero |
| PyBytes.DecimalAvoids | python/multi_echo_long.py:63-66 | a decimal number contains no non-digit byte, so no delimiter or bracket |
| PyBytes.ParseIntOfDecimal | test/receive.py:55 | `int()` reads back the number printed by `b'%u'`, with any whitespace around it |
| PyBytes.ParseIntOfNegative | python/multi_echo_long.py:80 | `int()` accepts a minus sign: `-n` reads as -n |
| PyBytes.ParseIntShape | test/receive.py:54-58 | a field `int()` accepts is, once stripped, non-empty and made only of digits, signs and underscores |
| PyBytes.ParseIntBlank | test/receive.py:54-58 | an empty or all-whitespace field raises ValueError |
| Framing.NextEnd | python/ble_multi_adapter.py:75-80 | the end byte that closes the first frame lies after position 0 and inside the buffer, or there is none (-1) |
| Framing.NextEndSpec | python/ble_multi_adapter.py:75-80 | a found frame has no start byte before it and no end byte in its body; none is found exactly when the buffer holds no start byte followed by an end byte |
| Framing.Tail | python/ble_multi_adapter.py:83 | the kept buffer is never longer than the scanned one |
| Framing.TailIsSuffix | python/ble_multi_adapter.py:83 | the kept buffer is a suffix of the scanned one |
| Framing.DeframeNone | python/ble_multi_adapter.py:74-80 | a buffer without a complete frame delivers nothing and is kept whole |
| Framing.DeframeCons | python/ble_multi_adapter.py:75-82 | bytes before a start byte are dropped silently, the frame body is delivered first, and scanning resumes after its end byte |
| Framing.DeframeSound | python/ble_multi_adapter.py:81-83 | no delivered message contains the end byte, and the kept tail holds no complete frame |
| Framing.NextEndAppend | python/ble_multi_adapter.py:75-78 | a frame complete in a buffer is found unchanged when more bytes are appended |
| Framing.DeframeTwoCalls | python/ble_multi_adapter.py:71-83 | two calls, the second on the kept tail plus new bytes, deliver the same messages and keep the same tail as one call on all the bytes |
| Framing.DeframeSingle | python/ble_multi_adapter.py:71-83 | one frame after start-free bytes delivers exactly its body and keeps nothing |
| MultiAdapter.OnStatusMsg | python/ble_multi_adapter.py:96-103 | status routing raises IndexError exactly on a bare `C`; it emits only idle, connecting or connected events |
| MultiAdapter.ProcessMsg | python/ble_multi_adapter.py:85-94 | routing raises exactly on the empty message and on `:C`; a peer index is the marker byte minus 48, within -48..207 and unchecked |
| MultiAdapter.RouteMessageOf | python/ble_multi_adapter.py:85-103 | each routable event is produced by its canonical message: routing is a left inverse of the message layout |
| MultiAdapter.RouteSound | python/ble_multi_adapter.py:85-103 | every emitted event is routable and comes from its message: exactly for debug, central and peer; up to stripped whitespace for idle; up to ignored trailing bytes for connecting and connected |
| MultiAdapter.RouteSilent | python/ble_multi_adapter.py:96-103 | a message produces no callback exactly when it is `:` followed by nothing or by an unknown sub-tag |
| MultiAdapter.RouteNegativePeer | python/ble_multi_adapter.py:94 | a marker below `0` gives a negative peer index: `(` routes to peer -8 |
| MultiAdapter.Route | python/ble_multi_adapter.py:74-81 | routing a list of messages makes at most one callback per message |
| MultiAdapter.RouteRaises | python/ble_multi_adapter.py:81 | routing a list raises exactly when one of its messages raises |
| MultiAdapter.RouteAppend | python/ble_multi_adapter.py:74-82 | routing two lists in turn is routing their concatenation, stopping at the first raise |
| MultiAdapter.ProcessRxTail | python/ble_multi_adapter.py:83 | without a raise the kept buffer is a suffix of the old buffer plus the new bytes, and holds no complete frame |
| MultiAdapter.ProcessRxSingle | python/ble_multi_adapter.py:71-83 | `01 p 00` into an empty buffer, p free of 00, routes exactly p and leaves the buffer empty |
| MultiAdapter.InnerStartKept | python/ble_multi_adapter.py:75-81 | an inner start byte belongs to the body: `01 a 01 b 00` delivers `a 01 b` |
| MultiAdapter.ProcessRxTwoCalls | python/ble_multi_adapter.py:71-83 | two calls give the events of one call on both reads; a raise in either call ends the trace at the same point |
| MultiAdapter.ProcessRxReplay | python/ble_multi_adapter.py:81-83 | after a raise the untrimmed buffer makes the next call replay the delivered events and raise again |
| MultiAdapter.SendCmd | python/ble_multi_adapter.py:47-49 | a command frame is the command plus three bytes of framing |
| MultiAdapter.SendCmdFrame | python/ble_multi_adapter.py:47-49 | a command frame reaches the adapter as one frame whose body is `#` and the command |
| MultiAdapter.ResetBytes | python/ble_multi_adapter.py:51-52 | `reset` sends exactly 01 `#` `R` 00 |
| MultiAdapter.ConnectPeers | python/ble_multi_adapter.py:56-57 | the connect command is `C` followed by the space-joined peers, and splitting it on spaces recovers the peer list |
| MultiAdapter.SendData | python/ble_multi_adapter.py:59-61 | a data frame is the data plus three bytes of framing |
| MultiAdapter.SendDataFrame | python/ble_multi_adapter.py:59-61 | a data frame reaches the adapter as one frame whose body is `>` and the data |
| MultiAdapter.SendDataTo | python/ble_multi_adapter.py:63-65 | `send_data_to` is defined exactly for 0 <= 48 + idx <= 255 and otherwise raises OverflowError |
| MultiAdapter.SendDataToFrame | python/ble_multi_adapter.py:63-65 | the body of a `send_data_to` frame routes back to `Peer(idx, data)` |
| MultiConnect.Tag | test/multi_connect.py:69 | `msg[0:1]` has at most one byte and is empty exactly for the empty message |
| MultiConnect.TagIs | test/multi_connect.py:69-75 | comparing the slice tag with a one-byte string tests the first byte |
| MultiConnect.SameRouting | test/multi_connect.py:68-86 | the earlier class routes every message, the empty one included, to the same outcome as the newer one |
| MultiConnect.FindShift | test/multi_connect.py:58-61 | searching the buffer from `first` is searching its suffix at `first`, shifted |
| MultiConnect.FrameFrom | test/multi_connect.py:58-65 | the frame the index loop finds from `first` is the next frame of the suffix at `first` |
| MultiConnect.NoFrameFrom | test/multi_connect.py:58-63 | when the loop breaks, the suffix at `first` holds no frame and is the kept tail |
| MultiConnect.RouteStops | test/multi_connect.py:64 | a raising message ends routing, whatever follows it |
| MultiConnect.ScannedStep | test/multi_connect.py:64-65 | delivering the found frame and moving `first` past its end byte keeps the loop invariant |
| MultiConnect.ScannedEnd | test/multi_connect.py:66 | when the loop stops, the delivered frames and `rx_buff[first:]` are the scan's messages and tail |
| MultiConnect.RouteOne | test/multi_connect.py:68-77 | the earlier class's routing of one message gives the same outcome as the newer class's |
| MultiConnect.ProcessRx | test/multi_connect.py:54-66 | the index loop as written computes the same buffer, events and raise as the suffix-based scan of the newer adapter |
| Receive.GrowsTrans | test/receive.py:25-32 | counter growth composes across calls |
| Receive.CheckSn | test/receive.py:34-45 | `last_sn` becomes sn on every call; counters only grow; the invariant is kept; only the sequence counters change |
| Receive.CheckSnCases | test/receive.py:36-44 | sn <= last adds one bad number; sn == last + 1 changes nothing else; a forward gap adds sn - last - 1 to the missed count and raises the largest gap to it if bigger |
| Receive.CheckIncreasing | test/receive.py:34-45 | a strictly increasing run after `last` adds no bad number and misses exactly the numbers it skips |
| Receive.ProcessMsg | test/receive.py:47-60 | every message counts once; a message is good exactly when it has three `#` fields, equal second and third, and an int first field; a good one runs `check_sn` on the parsed first field, whatever its spelling (whitespace, sign, underscores); a bad one counts as bad and changes nothing else |
| Receive.ProcessMsgGood | test/receive.py:47-60 | `sn#data#data` is good and checks sn |
| Receive.DecimalFieldValue | test/receive.py:50-55 | a printed sequence number has no `#` and parses back to itself |
| Receive.ProcessMsgHalvesDiffer | test/receive.py:51-53 | different halves make a message bad, whatever its number |
| Receive.ProcessMsgs | test/receive.py:74 | processing messages in order counts each one and keeps the invariant |
| Receive.ProcessChunk | test/receive.py:62-79 | a chunk counts once; every `(` ... `)` message of the joined buffer is counted; the message buffer keeps exactly the unterminated tail; the frame state is left alone and the counter invariant kept |
| Receive.OnStreamStart | test/receive.py:81-85 | the stream start empties the message buffer and ends the wait, changing no counter |
| Receive.OnFrame | test/receive.py:99-102 | one frame of `process_buffer` keeps the receive buffer, grows the counters and keeps the invariant |
| Receive.OnFrames | test/receive.py:92-103 | the frame loop changes neither the receive buffer nor the byte count, grows the counters and keeps the invariant |
| Receive.ProcessBuffer | test/receive.py:87-104 | `total_bytes` grows by exactly the number of bytes received, and the invariant is kept |
| Receive.ProcessBufferGrows | test/receive.py:87-104 | no counter decreases, and the kept buffer is the unterminated tail of the scan |
| Receive.ReachableValid | test/receive.py:21-32 | every state reached from the start keeps bad <= total messages, largest gap <= missed, and no counts before a first number |
| Receive.OnFramesAppend | test/receive.py:92-103 | two batches of frames are handled as one list |
| Receive.StreamStartEffect | test/receive.py:99-100 | after a stream-start frame the message buffer is empty and the stream has started; the counters and the last number are unchanged |
| Receive.WaitingDropsChunks | test/receive.py:101-102 | while waiting for the start, chunks change nothing |
| Receive.EmptyFrameStartsStream | test/receive.py:99-100 | the bytes 01 00 start the stream on a fresh receiver |
| TestStream.RandomNotDelimiter | python/multi_echo_long.py:34-42 | random payloads never contain the delimiter: 0..254 excludes 0xFF, and `0`..`z` excludes `#` |
| TestStream.NewStream | python/multi_echo_long.py:45-57 | a new stream is started only with `no_wait`, has no last number, and zero counts |
| TestStream.MkMsg | python/multi_echo_long.py:59-66 | `mk_msg` increments the last number by one, and yields a message exactly when the payload range is non-empty |
| TestStream.MkMsgShape | python/multi_echo_long.py:59-66 | the message is `(` sn delim data delim data `)`, no longer than `max_frame` and 2160 |
| TestStream.MsgReceived | python/multi_echo_long.py:68-99 | only the sequence and corruption counters and the byte count change; corrupt grows by at most one; a valid result counts nothing corrupt; the byte count grows by the message length or not at all |
| TestStream.TrackSn | python/multi_echo_long.py:88-99 | the sequence check changes only the last number and the lost, dup and reorder counts, and never turns an invalid message valid |
| TestStream.MsgReceivedRejects | python/multi_echo_long.py:69-84 | missing brackets, a field count other than 3, or an unparsable number each count one corrupt and return False; bytes count only once the brackets pass |
| TestStream.TrackSnCases | python/multi_echo_long.py:88-98 | a forward gap counts the lost numbers and is accepted; a repeat counts a dup and a step back a reorder, both refused with the last number kept |
| TestStream.HalvesDiffer | python/multi_echo_long.py:85-87 | unequal halves count one corrupt, yet the sequence number is still tracked and the result is False |
| TestStream.ReceiveNext | python/multi_echo_long.py:68-99 | a well-formed message with the next number is valid and moves the last number on |
| TestStream.ChunkReceived | python/multi_echo_long.py:101-112 | an empty chunk starts the stream, forgets the last number and counts a connection; chunks before the start are ignored; `valid_cnt <= msg_cnt` is kept |
| TestStream.ChunksReceived | python/multi_echo_long.py:101-112 | `valid_cnt <= msg_cnt` is kept over any chunk sequence |
| TestStream.SendAllNumbered | python/multi_echo_long.py:59-66 | successive `mk_msg` calls send messages numbered on from the last number |
| TestStream.ReceiveNumbered | python/multi_echo_long.py:68-112 | consecutive numbered messages all count valid, with nothing lost, duplicated, reordered or corrupt |
| TestStream.EchoAllValid | python/multi_echo_long.py:59-112 | a fresh stream fed, after the start chunk, the messages of a fresh sender counts every one valid and nothing lost, duplicated, reordered or corrupt |
| MxEncoding.SymbolCode | ble_uart_mx/mx_encoding.cpp:7-37 | `b64code(b64symbol(c)) == c` for every code below 64, and the symbol is in the alphabet |
| MxEncoding.AlphabetOrder | ble_uart_mx/mx_encoding.cpp:3-20 | the alphabet is A-Z, a-z, 0-9, `+`, `/` in that order, in consecutive runs, as in Table 1 of RFC 4648; codes above 63 give 0 |
| MxEncoding.CodeSymbol | ble_uart_mx/mx_encoding.cpp:23-37 | every symbol is the symbol of its code; exactly the alphabet and `=` are valid; `=` is code 0 |
| MxEncoding.SetByteSpec | ble_uart_mx/mx_encoding.cpp:43-45 | `set_byte(b, idx)` stores b in `byte[2 - idx]` and leaves the other bytes of the word alone |
| MxEncoding.PackLayout | ble_uart_mx/mx_encoding.cpp:47-61 | four codes form `c0<<18 \| c1<<12 \| c2<<6 \| c3`, whose bytes are read as word>>16, (word>>8)&255 and word&255 |
| MxEncoding.CodeBelow64 | ble_uart_mx/mx_encoding.cpp:51-53 | `get_code` returns a 6-bit code |
| MxEncoding.LoadForgets | ble_uart_mx/mx_encoding.cpp:67-77 | the codes of a loaded union do not depend on its earlier contents |
| MxEncoding.Repack | ble_uart_mx/mx_encoding.cpp:71-77 | packing the four codes of three loaded bytes gives back those bytes |
| MxEncoding.EncodeLength | ble_uart_mx/mx_encoding.cpp:65-105 | `encode` writes 4 symbols for every started group of 3 bytes |
| MxEncoding.EncodeShape | ble_uart_mx/mx_encoding.cpp:65-105 | `encode` writes only alphabet symbols and `=`, with `=` exactly in the last (3 - len mod 3) mod 3 places |
| MxEncoding.EncodeAnyBuffer | ble_uart_mx/mx_encoding.cpp:67 | the uninitialised union makes no difference to the output |
| MxEncoding.Encode | ble_uart_mx/mx_encoding.cpp:65-105 | the loop as written writes the encoding of the first `len` bytes and returns 4 symbols per started group of 3 |
| MxEncoding.DecodeGroup | ble_uart_mx/mx_encoding.cpp:116-133 | a group decodes exactly when all four symbols are valid and at most two are `=`, giving 3 minus its `=` count bytes |
| MxEncoding.DecodeDefined | ble_uart_mx/mx_encoding.cpp:113-128 | `decode` fails exactly for a length that is not a multiple of 4, an invalid symbol, or a group with more than two `=` |
| MxEncoding.DecodeCount | ble_uart_mx/mx_encoding.cpp:124-135 | on success `decode` returns 3 bytes per group minus one per `=` anywhere in the input |
| MxEncoding.DecodeQuad | ble_uart_mx/mx_encoding.cpp:70-81 | a full group of `encode` decodes back to its three bytes |
| MxEncoding.DecodeTwo | ble_uart_mx/mx_encoding.cpp:82-91 | the group for a 2-byte remainder decodes back to the two bytes |
| MxEncoding.DecodeOne | ble_uart_mx/mx_encoding.cpp:92-101 | the group for a 1-byte remainder decodes back to the byte |
| MxEncoding.DecodeEncode | ble_uart_mx/mx_encoding.cpp:65-138 | `decode(encode(x))` writes x back and returns its length |
| MxEncoding.EncodedIsText | ble_uart_mx/mx_encoding.h:9-17 | encoded data never looks binary, and the start tag 0x02 is binary and not a base64 symbol |
| MxEncoding.ZeroAmbiguous | ble_uart_mx/mx_encoding.cpp:107-115 | a return of 0 may mean empty input or an error |
| MxEncoding.PadInside | ble_uart_mx/mx_encoding.cpp:34-35 | `=` is accepted anywhere in a group as code 0: `A=BC` decodes to two zero bytes |
| MxEncoding.EncodeExceedsMacro | ble_uart_mx/mx_encoding.h:12 | `MAX_BASE64_ENCODED_LEN(n)` as written is below the encoded length for every n >= 1 |
| MxEncoding.EncodeFitsChunk | ble_uart_mx/mx_encoding.h:12-14 | with the corrected macro, every chunk of at most MAX_CHUNK bytes encodes within `MAX_ENCODED_DATA_LEN` |
| MxEncoding.UnpaddedRejected | ble_uart_mx/mx_encoding.h:22-23 | the encoding of a length not divisible by 3, with its `=` removed, is rejected by `decode` as written |
| MxEncoding.StripRestores | ble_uart_mx/mx_encoding.cpp:82-101 | removing the `=` of an encoding takes off exactly its padding, and putting them back restores it |
| MxEncoding.DecodeUnpaddedEncode | ble_uart_mx/mx_encoding.h:22-23 | the decoder as documented reads back both the padded and the unpadded encoding |
| FnvHash.HashCons | ble_uart_mx/fnv_hash.h:13-18 | folding the first byte in, then hashing the rest, gives the same hash |
| FnvHash.HashAppend | ble_uart_mx/fnv_hash.h:13-18 | hashing a concatenation is hashing the second part from the hash of the first |
| FnvHash.HashSnoc | ble_uart_mx/fnv_hash.h:8-18 | one more byte applies `fnv1a_up` to the hash so far |
| FnvHash.Fnv1aFrom | ble_uart_mx/fnv_hash.h:13-18 | the loop returns the hash of the first `len` bytes continued from the given hash |
| FnvHash.Fnv1a | ble_uart_mx/fnv_hash.h:20-23 | `fnv1a` is the hash seeded with the offset basis 2166136261 |
| FnvHash.Fnv1aCopyFrom | ble_uart_mx/fnv_hash.h:25-33 | the copying loop returns the same hash as `fnv1a_`, writes the first `len` bytes, and leaves the rest of the output alone |
| FnvHash.Fnv1aCopy | ble_uart_mx/fnv_hash.h:35-38 | `fnv1a_copy` is the copying hash seeded with the offset basis |
| FnvHash.KnownVectors | ble_uart_mx/fnv_hash.h:5-11 | the constants and the modulo-2^32 step give the published FNV-1a hashes of "" and "a" |
| Checksum.Sealed | ble_uart_mx/checksum.h:25-29 | a sealed chunk is the data followed by three trailer bytes |
| Checksum.ChksumUpFeeds | ble_uart_mx/checksum.h:8-16 | one more byte through `chksum_up` continues the checksum `chksum_update` computes over the data plus that byte |
| Checksum.ChksumUpdate | ble_uart_mx/checksum.h:13-16 | `chksum_update` is `fnv1a_` from the given start |
| Checksum.ChksumCopy | ble_uart_mx/checksum.h:19-31 | `chksum_copy` returns the hash of the data, writes the data and its trailer, and leaves the rest of the buffer alone |
| Checksum.ChksumValidate | ble_uart_mx/checksum.h:34-46 | validation stores the continued hash whatever the outcome, and accepts exactly when the buffer starts with the sealed data |
| Checksum.SealedPrefix | ble_uart_mx/checksum.h:40-45 | accepting is comparing the three bytes after the data with the trailer |
| Checksum.RoundTrip | ble_uart_mx/checksum.h:19-46 | a chunk laid out by `chksum_copy` validates from the same start, leaving the hash `chksum_copy` returned |
| Checksum.Chained | ble_uart_mx/checksum.h:34-46 | validating chunk A and then chunk B through `*inout` leaves the hash of A's and B's data together |
| Checksum.ReadsPrefix | ble_uart_mx/checksum.h:40-45 | validation reads only the first len + 3 bytes |
| Checksum.CorruptTrailer | ble_uart_mx/checksum.h:40-45 | any change to the first trailer byte is caught |
| XFrame.FieldsDisjoint | ble_uart_mx/xframe.h:6-15 | the sequence-number mask is 31, and it and the three flag bits are pairwise disjoint and cover the byte |
| XFrame.SnBits | ble_uart_mx/xframe.h:14-20 | the header's low 5 bits are the sequence number modulo 32 |
| XFrame.FlagBits | ble_uart_mx/xframe.h:6-20 | with 0/1 flags, bit 5 is binary, bit 6 first and bit 7 last |
| XFrame.Unique | ble_uart_mx/xframe.h:14-20 | with 0/1 flags, the header determines the sequence number modulo 32 and every flag |
| XFrame.SnWraps | ble_uart_mx/xframe.h:15-20 | numbers 32 apart give the same header |
| XFrame.WideFlagSpills | ble_uart_mx/xframe.h:17-20 | a flag argument of 2 spills into the next flag: binary 2 reads as first |
| NeoPix.LedDataInit | ble_uart_mx/neopix.h:5-30 | the loops write exactly 24 entries, entry 8·col + bit being the pulse of bit `bit` (from the top) of colour `col` in the order green, red, blue |
| NeoPix.EntryShape | ble_uart_mx/neopix.h:14-26 | every entry starts high, ends low and lasts 12 ticks |
| NeoPix.DecodeInit | ble_uart_mx/neopix.h:11-29 | reading a high of 8 ticks as a 1 bit recovers (r, g, b) from the entries |
| NeoPix.Injective | ble_uart_mx/neopix.h:11-29 | distinct colours give distinct entries |
| MxConfig.OrDefault | ble_uart_mx/mx_config.h:126-145 | an option left undefined takes its default, a defined one keeps its value |
| MxConfig.Errors | ble_uart_mx/mx_config.h:31-58 | at most the six `#error` directives fire |
| MxConfig.AcceptedIff | ble_uart_mx/mx_config.h:31-58 | no `#error` fires exactly when the options follow every rule, each stated on the header's own options |
| MxConfig.ErrorsListed | ble_uart_mx/mx_config.h:31-58 | each error is reported exactly when its condition holds |
| MxConfig.BothRolesTwoErrors | ble_uart_mx/mx_config.h:37-50 | CENTRAL_ONLY with PASSIVE_ONLY and no peer address fires two errors, since PASSIVE_ONLY has already defined AUTOCONNECT |
| MxConfig.SimpleLinkPeersChecked | ble_uart_mx/mx_config.h:31-60 | the peer limit is checked before SIMPLE_LINK sets MAX_PEERS to 1 |
| MxConfig.PeersWithinStack | ble_uart_mx/mx_config.h:25-35 | an accepted configuration uses no more peers than MAX_CONNS (2 on ESP32, 4 elsewhere); SIMPLE_LINK uses one; the default is MAX_CONNS |
| MxConfig.ForcedOptions | ble_uart_mx/mx_config.h:37-151 | PASSIVE_ONLY forces AUTOCONNECT, CENTRAL_ONLY forces HIDDEN, SIMPLE_LINK forces NO_DEBUG and drops the status report, EXT_FRAMES forces binary support |
| MxConfig.FrameSizes | ble_uart_mx/mx_config.h:99-121 | MAX_SIZE defaults to 244; extended frames give MAX_CHUNK = MAX_SIZE - 4 and MAX_FRAME = MAX_CHUNK * MAX_CHUNKS; plain frames MAX_FRAME = MAX_CHUNK = MAX_SIZE; header, chunk and checksum fill MAX_SIZE |
| MxConfig.ChunkFillsWrite | ble_uart_mx/mx_config.h:113-117 | an xframe header, MAX_CHUNK data bytes and the checksum trailer fill one MAX_SIZE write |
| MxConfig.BufferSizes | ble_uart_mx/mx_config.h:123-124 | the receive buffer is a multiple of 4096 strictly above MAX_FRAME * MAX_BURST + 2048, and the smallest such multiple when that sum is not negative; the transmit buffer is four times it |
| MxConfig.RxBufferBounds | ble_uart_mx/mx_config.h:123 | `(1 + n / 4096) * 4096` with C's truncating division is a multiple of 4096 above n, at most 4096 above it for n >= 0 |
| MxConfig.Delimiters | ble_uart_mx/mx_config.h:73-87 | HW_UART defaults to 0x01/0x00; USB ends messages with a newline and has no start byte; a preset UART_END is kept |
| MxConfig.Defaults | ble_uart_mx/mx_config.h:126-145 | the timing and queue options default to 10, 20000, 10, 32 and 4 |
| MxConfig.VariantLetters | ble_uart_mx/mx_config.h:157-199 | VARIANT has 1 to 6 letters; the first is X, else B, else T; P beats A, C beats H; R, e and u appear exactly when their options say so |
| MxConfig.VariantDetermines | ble_uart_mx/mx_config.h:157-199 | two configurations with the same VARIANT agree on every option it shows |
| MxConfig.EchoMaster | ble_uart_mx/echo_master_config.h:117-129 | the echo master options use extended frames of nine chunks |
| MxConfig.EchoMasterResolves | ble_uart_mx/echo_master_config.h:108-130 | the echo master is accepted, with MAX_CHUNK 240 and MAX_FRAME 2160 (the long echo test's `max_size`), a newline end byte, and VARIANT "XAe" |

## Left out

- Serial I/O: `open`, `close`, `poll` and the drain read in `reset` are left out, as are the main loops and the pyserial reads and writes. Only the bytes each call takes or writes are modelled.
- `print` calls, `print_stat`, `show_stat`, `chk_opt`, time stamps and pacing are left out. They only report or schedule.
- The `EchoTest` and `SimpleEchoTest` classes and the other driver scripts are left out. They use adapter features (`is_congested`, `communicate`, stream tags, a two-argument `on_idle`) that python/ble_multi_adapter.py does not have.
- `random_bytes` and `randrange`: the payload is a parameter constrained to the values `random_bytes` can return and the lengths `randrange` can pick. Randomness itself is not modelled.
- `neopix_led_init` and `neopix_led_write` are left out: they only call the RMT driver. debug.h is left out for the same reason.
- `is_data_binary` has only a declaration. The model states its documented meaning (`MxEncoding.IsDataBinary`) and proves no implementation.
- When `decode` fails part-way, the bytes it already wrote into the output buffer are not modelled; only the return value is.
- The source has two problems the model does not represent:
  - `encode` is declared in mx_encoding.h with `uint8_t asc_data[MAX_ENCODED_DATA_LEN]` but defined with `char asc_data[MAX_ENCODED_CHUNK_LEN]`;
  - `MAX_ENCODED_CHUNK_LEN` is defined nowhere.
  
  Array-size annotations do not change the behaviour.
- MAX_BURST and the extended-frame MAX_CHUNKS come from configuration headers that are not part of this model. They are plain parameters (`Flags.maxBurst`, `Flags.maxChunks`).
- Pins, UUIDs, baud rates, the NeoPixel colour macros and the TX_BOOST power levels are left out. They configure hardware only.
- MxConfig.EchoMaster: echo_master_config.h is a self-contained older header that defines its own sizes and VARIANT. The model feeds its options through the mx_config.h rules instead. Its fixed `UART_RX_BUFFER_SZ 1024` is not the mx_config.h formula and is not modelled.
- The C preprocessor's `#error` does not stop preprocessing, so `MxConfig.Errors` lists every directive that fires. The order in which a compiler prints them is not modelled.
- `int()` accepts surrounding whitespace, one sign and single underscores between digits, and this is modelled. Other bases and non-ASCII digits are not.
- PyBytes.ParseInt: accepts digit runs of any length. Python 3.11 and later raise ValueError on a decimal string of more than 4300 digits (`sys.get_int_max_str_digits()`, adjustable at run time). So a sequence-number field that long counts as good here and as bad or corrupt under such an interpreter (test/receive.py:54-58, python/multi_echo_long.py:79-84). The limit depends on the interpreter version and settings, not on the scripts.

## Findings

| source | as written | input that shows it | evidently intended | confidence | as-written member | corrected member |
|---|---|---|---|---|---|---|
| ble_uart_mx/mx_encoding.h:12-14 | `MAX_BASE64_ENCODED_LEN(raw_len)` is `(raw_len)`, marked FIXME, so `MAX_ENCODED_DATA_LEN` is MAX_CHUNK bytes | any chunk of 1 byte or more: 1 byte encodes to 4 symbols, and 240 bytes to 320 | 4 * ((raw_len + 2) / 3), the padded base64 length | high, not executed | MxEncoding.EncodeExceedsMacro | MxEncoding.EncodeFitsChunk |
| ble_uart_mx/mx_encoding.h:22-23 | `decode` is documented to take input "with padding or not", but returns 0 whenever the remaining length is below 4 (mx_encoding.cpp:114-115) | the 1-byte input 0x00 encodes to "AA=="; without padding, "AA" is rejected | unpadded input, whose last group has 2 or 3 symbols, decodes as if its `=` were present | medium, not executed | MxEncoding.UnpaddedRejected | MxEncoding.DecodeUnpaddedEncode |
