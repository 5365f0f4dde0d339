# H.264 chunk tracker and packet feed, in Dafny

This project models the part of the h264-to-JPEG streamer that moves H.264 data around. The data travels as chunks: one NAL unit each, with a four-byte start code in front. The model covers four pieces:

- **The chunk tracker of `tracker.h`.** It is a FIFO of chunks plus a read offset into the head chunk. It is filled from a length-prefixed H.264 file (`read_chunk`, `tracker__read_headers`, `tracker__read_frame`) or from a message transport (`*__recv_headers`, `*__recv_frame`). It is drained onto a transport (`*__send_chunks`).
- **`read_packet` of `hw_decode.c`.** This is the callback through which the demuxer pulls bytes out of the tracker into its I/O buffer, across chunk boundaries, dropping every chunk it uses up.
- **`new_memory_ctx` and the one-in-three decimation in `process_frame`.** `new_memory_ctx` creates the tracker and its I/O buffer. `process_frame` keeps only one decoded frame in three, counted by `oneout`.
- **The view `dump_chunk` takes of a chunk.** It splits the NAL header byte into its three fields (ITU-T H.264, section 7.3.1) and looks up the name of header unit types.

The project has six modules:

- `Bytes` (bytes.dfy): bytes, `Option`, the big-endian `uint32_t` length field.
- `Chunks` (chunks.dfy): the chunk of chunk.h, `read_chunk`, and the receive functions reduced to what they do with the bytes.
- `NalHeader` (nal_header.dfy): the header byte and the name table.
- `ChunkTracker` (tracker.dfy): the tracker as a class with a `seq<Chunk>` queue and a cursor `pos`, its methods, and the specification functions they are proved against.
- `PacketSpec` (packet_spec.dfy): `read_packet` on values.
- `HwDecode` (hw_decode.dfy): `read_packet` on an `array<byte>`, `new_memory_ctx`, and the frame counter.

### Main results

- **Conservation.** One call of `read_packet` returns the next min(request, unread) bytes of the stream. It leaves exactly the rest readable, and leaves the buffer untouched past what it returned (`PacketSpec.ReadPacketPulls`). Successive pulls together return a prefix of the queued stream, and all of it once the requests add up to enough (`ChunkTracker.PullAllReturnsStream`, `ChunkTracker.PullAllDrains`).
- **Header scans.** The file scan reads records in order and stops after the first SEI chunk or at the first failed read (`ChunkTracker.HeaderScanReadsInOrder`). The receive scan appends exactly the non-dummy chunks of the messages it takes (`ChunkTracker.RecvScanFiltersDummies`).
- **Round trips.** Encoding a chunk as a record and reading it back gives the chunk (`Chunks.ReadChunkEncode`). Sending a chunk and receiving the message gives the chunk (`Chunks.ReceiveSentChunk`). Splitting the NAL header byte and joining the fields gives the byte, and the reverse (`NalHeader.JoinSplit`, `NalHeader.SplitJoin`).
- **Decimation.** Over any run of calls, at most one JPEG comes out per multiple of 3 the counter passes, and exactly one per multiple when every call gets a frame (`HwDecode.OutputsEveryThird`, `HwDecode.OutputsExactlyEveryThird`).

### Header acquisition compares the raw type byte

The header loops compare the raw type byte of a chunk with 6 and with 0, as the code does (tracker.h:146, 176-178, 188-190). A file header made of SPS, PPS and SEI units therefore ends with the first chunk whose byte is exactly 6. A unit whose full header byte is not 6 does not end the loop, even if its unit type is SEI.

## Model

| member | source | states |
|---|---|---|
| Bytes.BigEndian32 | tracker.h:280 | the length field, built from four bytes most significant first, is below 2^32 |
| Bytes.BigEndian32Inverse | tracker.h:280 | decoding four bytes and encoding the value again gives back the same four bytes |
| Chunks.ReadChunkAsWritten | tracker.h:273-294 | `read_chunk` as written builds a record exactly when the file starts with the four magic bytes `00 00 00 01`; with a length field present, the record's size is (length + 4) mod 2^32 and it holds the start code and whatever payload bytes the file still had, up to the length |
| Chunks.TruncatedRecordIsIncomplete | tracker.h:282-285 | a payload cut short by the end of the file gives a chunk whose recorded size (9) exceeds the bytes read into it (5) |
| Chunks.EmptyPayloadIsIncomplete | tracker.h:283-287 | a zero length gives a four-byte chunk whose type is read at offset 4 |
| Chunks.LengthNearLimitWraps | tracker.h:280-283 | a length of 0xFFFFFFFC makes `size + 4` wrap to 0, so the buffer has no room for the start code written into it |
| Chunks.Encode | tracker.h:276-286 | the record the reader expects for a chunk: start code, a 4-byte big-endian payload length, the payload; four bytes longer than the chunk's data |
| Chunks.ReadChunk | tracker.h:273-294 | NULL when fewer than four bytes remain or they are not the start code; the reader never grows the file, and a chunk it returns consumes at least one byte |
| Chunks.ReadChunkDecodes | tracker.h:276-289 | what the reader consumes is a prefix of the file; a chunk it returns starts with the start code, has its type byte at offset 4, is the data of exactly the record consumed, and has the size its length field gives |
| Chunks.ReadChunkEncode | tracker.h:273-294 | reading back the record of any chunk yields that chunk and leaves what follows it |
| Chunks.ReadChunkAgreesWhereComplete | tracker.h:273-294 | the corrected reader consumes exactly what the source consumes, and returns a chunk precisely when the source's record is complete, with the same bytes |
| Chunks.ReceiveAsWritten | tracker.h:69-86 | the receive functions as written: an empty or failed receive gives NULL; any other message becomes a chunk holding all of it |
| Chunks.ShortMessageIsIncomplete | tracker.h:79-81 | a four-byte message is accepted, yet its type is read at offset 4 |
| Chunks.Receive | tracker.h:92-107 | a received message becomes a chunk holding the whole message, typed by its byte at offset 4, exactly when the receive succeeded and the message has at least five bytes |
| Chunks.ReceiveAgreesWhereComplete | tracker.h:69-86 | the corrected receive differs from the source only where the source's chunk is incomplete |
| Chunks.ReceiveSentChunk | tracker.h:109-115 | sending a chunk's data as one message and receiving it gives back the chunk |
| NalHeader.HighMask | tracker.h:239 | `(t & 0x80) >> 7` is bit 7 of the header byte |
| NalHeader.MiddleMask | tracker.h:240 | `(t & 0x60) >> 5` is bits 6-5 of the header byte |
| NalHeader.LowMask | tracker.h:241 | `t & 0x1F` is bits 4-0 of the header byte |
| NalHeader.Split | tracker.h:238-241 | the three header fields are in range (1, 2 and 5 bits) and together account for every bit of the byte |
| NalHeader.JoinSplit | tracker.h:238-241 | splitting a byte and joining its fields gives back the byte |
| NalHeader.SplitJoin | tracker.h:238-241 | joining in-range fields and splitting the byte gives back the fields |
| NalHeader.NameGuardAdmitsIndexNine | tracker.h:265 | the guard `type <= 9` admits index 9, but the table has nine entries |
| NalHeader.NalTypeName | tracker.h:226-236 | a unit type has a name exactly when it is 6, 7 or 8: SEI, SPS and PPS |
| NalHeader.NalTypeNameAgreesInBounds | tracker.h:265 | wherever the source's lookup is in bounds, the corrected lookup reads the same entry |
| NalHeader.Dump | tracker.h:237-270 | nothing is logged for a non-IDR slice (type 1); the I-frame line is logged for an IDR slice (type 5); the name is logged exactly for types 6-8, and it is that type's entry of `naltypes`; otherwise the number; every line logs the chunk's size |
| ChunkTracker.FlattenAppend | tracker.h:127-138 | appending a chunk appends its bytes to the queued stream |
| ChunkTracker.UnreadAppend | tracker.h:127-138 | appending a chunk keeps the cursor valid and appends exactly its bytes to what can still be read |
| ChunkTracker.UnreadConcat | tracker.h:127-138 | appending a run of chunks, one `tracker__add_chunk` after another, keeps the cursor valid and appends exactly their bytes to what can still be read |
| ChunkTracker.AfterPull | hw_decode.c:164-196 | the queue and cursor a pull leaves satisfy the tracker's invariant |
| ChunkTracker.PullConserves | hw_decode.c:164-196 | a pull takes the first min(request, unread) unread bytes and leaves exactly the rest readable; a request larger than what is queued empties the tracker |
| ChunkTracker.PullAllReturnsStream | hw_decode.c:157-199 | successive pulls (`PullAll`, one `read_packet` call per request; a request for zero bytes, like one with nothing queued, returns nothing and changes nothing) return, concatenated, a prefix of the unread stream as long as the requests allow, and leave exactly the rest readable |
| ChunkTracker.PullAllDrains | hw_decode.c:157-199 | successive pulls (`PullAll`) whose requests add up to at least what was queued return every queued byte in order and leave nothing readable |
| ChunkTracker.HeaderScanReadsInOrder | tracker.h:140-149 | in the header scan `HeaderScan` (the loop of `tracker__read_headers` on values), the file's records are appended in order; only the last may have type byte 6; reading stops right after that SEI chunk or at the first read that returns NULL |
| ChunkTracker.NonDummy | tracker.h:176-179 | the chunks kept from the messages all have a type byte, and none is of type 0 |
| ChunkTracker.RecvScan | tracker.h:171-193 | the receive loop takes at least one receive when any comes, and no more than come |
| ChunkTracker.RecvScanFiltersDummies | tracker.h:171-193 | the loop appends exactly the non-dummy chunks of the messages it takes; each message before the last one taken was a chunk other than SEI; it stops early only at a NULL receive or an appended SEI chunk |
| ChunkTracker.PayloadsCarryQueue | tracker.h:151-169 | the messages `send_chunks` puts out (`Payloads`): one message per queued chunk, in order, each the chunk's full data (including bytes a pull already returned); receiving each rebuilds its chunk |
| ChunkTracker.PayloadsFlatten | tracker.h:151-169 | the messages sent, concatenated, are the whole queued stream |
| ChunkTracker.Tracker.constructor | tracker.h:296-301 | a new tracker is empty with its cursor at 0 |
| ChunkTracker.Tracker.AddChunk | tracker.h:127-138 | the chunk goes to the tail; on an empty tracker the cursor is reset to 0, otherwise it stays; the readable bytes grow by the chunk's data |
| ChunkTracker.Tracker.ReadHeaders | tracker.h:140-149 | the chunks appended and the file left unread are those of the header scan `HeaderScan`; the cursor does not move, and the readable bytes grow by exactly the appended chunks' data |
| ChunkTracker.Tracker.RecvHeaders | tracker.h:171-193 | the chunks appended and the receives left are those of the receive scan `RecvScan`; the cursor does not move, and the readable bytes grow by exactly the appended chunks' data |
| ChunkTracker.Tracker.SendChunks | tracker.h:151-169 | every queued chunk's data goes out as one message, in queue order, whatever the cursor says; then the tracker is empty with its cursor at 0 |
| ChunkTracker.Tracker.ReadFrame | tracker.h:195-203 | reports 1 exactly when a record was read; that chunk is appended and its bytes become readable; the cursor does not move; the file advances as the reader consumed it |
| ChunkTracker.Tracker.RecvFrame | tracker.h:205-223 | one receive; reports 1 exactly when it yields a chunk, which is appended (a dummy of type 0 included); the cursor does not move, and the readable bytes grow by that chunk's data |
| PacketSpec.WrittenMeans | hw_decode.c:170-182 | a copy of `n` bytes to offset `at` changes exactly those `n` bytes of the buffer, into the source bytes |
| PacketSpec.Loop | hw_decode.c:166-196 | each way out of the copy loop leaves a valid cursor and the buffer's length unchanged |
| PacketSpec.LoopCopies | hw_decode.c:166-196 | once anything is wanted, the loop copies the next min(wanted, unread) unread bytes after what it already copied, returns the new fill level, and leaves the tracker where a pull of that many bytes does |
| PacketSpec.ReadPacketPulls | hw_decode.c:157-199 | for `read_packet` on values (`ReadPacketResult`): with nothing queued or nothing asked for: `AVERROR_EOF` and nothing changed; otherwise returns n = min(buf_size, unread), the buffer starts with the next n unread bytes and is untouched after them, exactly the bytes after those stay readable; a request inside the head only moves the cursor, one that uses the head up exactly drops it, and one larger than all that was queued returns fewer bytes than asked and empties the tracker |
| HwDecode.Copy | hw_decode.c:170-182 | `memcpy(&buf[bufpos], src, n)` leaves the array as the source bytes written over it at `bufpos` |
| HwDecode.ReadPacket | hw_decode.c:157-199 | the return value, buffer, queue and cursor it leaves are those `ReadPacketPulls` describes, and the tracker's invariant holds |
| HwDecode.NewMemoryContext | hw_decode.c:202-227 | a context and tracker come back exactly when all three allocations succeed; the tracker is new, empty, with cursor 0, behind a 50000-byte I/O buffer |
| HwDecode.FrameCounter.constructor | hw_decode.c:30 | the counter starts at 0 |
| HwDecode.FrameCounter.ProcessFrame | hw_decode.c:59-121 | the counter goes up exactly when the packet was accepted and both frames allocated; a JPEG comes out exactly when, in addition, the new count is a multiple of 3 and a frame was received |
| HwDecode.OutputsEveryThird | hw_decode.c:76-79 | over any run of calls the counter grows by the number of counted calls, and at most one JPEG comes out per multiple of 3 it passes |
| HwDecode.OutputsExactlyEveryThird | hw_decode.c:76-79 | when every call is counted and gets a frame, exactly one JPEG comes out per multiple of 3 the counter passes |

## Left out

- The linked list of chunks is a sequence. Walking `next` to the tail in `tracker__add_chunk` is appending to it. Pointer aliasing between chunks is not modelled.
- `chunk__del` and every `free` and `malloc` are not modelled, and neither is the `dtype` tag that decides how a chunk's memory is released. Where `read_packet` deletes a used-up chunk, the model drops it from the queue.
- ChunkTracker.Tracker.ReadHeaders, ChunkTracker.HeaderScan: built on the corrected reader `Chunks.ReadChunk`, not on `read_chunk` as written. In four cases the scan ends in the model, while the source (tracker.h:279-290) appends a chunk anyway and goes on as after any other chunk: it stops after it when its type byte is 6 (tracker.h:146), and otherwise reads on. The four cases are: a record with length 0; a length whose size wraps past 2^32; a record whose data is cut short by the end of the file (`HeaderScan([0,0,0,1,0,0,0,5,0x65]) == ([], [])`; the source appends a chunk of the recorded size); and a length field that is itself cut off (`HeaderScan([0,0,0,1,0,0]) == ([], [])`; the source takes the size from length bytes it only partly read).
- ChunkTracker.Tracker.ReadFrame: built on `Chunks.ReadChunk`. For a last record cut short by the end of the file, a length field cut off by it, a record with length 0, or a length whose size wraps, the model appends nothing and reports 0; the source appends a chunk of the recorded size and reports 1, and send_video.c then sends it.
- ChunkTracker.Tracker.RecvHeaders, ChunkTracker.RecvScan, ChunkTracker.NonDummy: built on the corrected `Chunks.Receive`. A message of one to four bytes ends acquisition in the model, as a failed receive does. The source instead types the chunk by a byte outside the message. For ZeroMQ that byte is `buffer[4]` of the global receive buffer (tracker.h:67, 70, 81): whatever the last message of five or more bytes left there, or 0 before any such message, since a global starts zeroed. For nanomsg it is `buf[4]`, past the end of the message (tracker.h:103). The loop then does one of three things, depending on that byte. At 0 it drops the chunk as a dummy and keeps receiving (tracker.h:176, 188). At 6 it appends the chunk and stops (tracker.h:178, 190). At any other value it appends the chunk and keeps receiving. So a short first message on ZeroMQ is skipped by the source, while the model stops there.
- ChunkTracker.Tracker.RecvFrame: built on `Chunks.Receive`. For a message of one to four bytes the model appends nothing and reports 0; the source appends a chunk and reports 1.
- A file is modelled as the sequence of its unread bytes, and `FILE *` reads as consuming a prefix of it. A transport is modelled as the finite sequence of what its receive calls return; when the sequence runs out, the receive loops end, whereas a real receive blocks. The ZeroMQ and nanomsg variants of `recv_headers`, `recv_frame` and `send_chunks` run the same loop over such a source, so each is one member.
- The 500000-byte receive buffer of `myzmq__recv_chunk` is not modelled. A message longer than that is truncated by `zmq_recv`, which still returns the full size.
- Integer widths of `int pos`, `bufpos`, `bufleft`, `chunkleft` and `int buf_size` are not modelled. The `uint32_t` chunk size assigned to `int chunkleft` is not modelled either. `bufSize` is a `nat`, because the demuxer never passes a negative size. The `uint32_t` wrap of `size + 4` in `read_chunk` is modelled.
- FrameCounter.ProcessFrame: `oneout` is unbounded; the signed overflow of `int oneout` after 2^31 calls is not modelled.
- libav (the decoder, the hardware frame transfer, scaling), the JPEG compressor, `send_jpeg`, and every socket and file handle are not modelled. Their results enter only as `Attempt`'s return codes and allocation outcomes in `process_frame`, and as the three allocation outcomes of `new_memory_ctx`.
- FrameCounter.ProcessFrame: `avcodec_receive_frame` runs on every counted call, even when the frame is then thrown away. The model takes its return value as input and does not model its effect on the decoder's state.
- NalHeader.Dump: the clock readings, the I-frame interval printed from them, and the `printf`/`fprintf` output are not modelled. The model states which kind of line is logged and what it carries. For unit type 9 the model logs the number. The source instead reads `naltypes[9]`, one entry past the end of its nine-entry table (tracker.h:226-236, 265), which is undefined behaviour in C.
- HwDecode.ReadPacket: the model raises `bufpos` by `chunkleft` before the `chunkleft == bufleft` test, where the C code does so only on the path past it (hw_decode.c:174-183). The result is the same, because that test's branch returns `buf_size` and does not read `bufpos`.

## Findings

| source | as written | input that shows it | evidently intended | confidence | as-written member | corrected member |
|---|---|---|---|---|---|---|
| tracker.h:282-285 | the reads of the length field and the payload are not checked, and the chunk records `size + 4` bytes however many were read | a file ending `00 00 00 01 00 00 00 05 65` (length 5, one payload byte) | return NULL for a record cut short by the end of the file | not executed | Chunks.TruncatedRecordIsIncomplete | Chunks.ReadChunk |
| tracker.h:283-287 | `c->type = chunkdata[4]` reads past a 4-byte buffer when the length is 0 | the record `00 00 00 01 00 00 00 00` | reject a record with no payload byte (no NAL header) | not executed | Chunks.EmptyPayloadIsIncomplete | Chunks.ReadChunk |
| tracker.h:280-283 | `size + 4` is computed in `uint32_t` and wraps, so `malloc(0)` gets four bytes written into it | the length field `FF FF FF FC` | reject a length whose chunk size does not fit the `uint32_t` size field | not executed | Chunks.LengthNearLimitWraps | Chunks.ReadChunk |
| tracker.h:79-81 | a message of fewer than five bytes is accepted and its type is read at `buffer[4]` | a four-byte message `00 00 00 01` | reject a message too short to hold a NAL header byte | not executed | Chunks.ShortMessageIsIncomplete | Chunks.Receive |
| tracker.h:265 | the guard `type <= 9` admits index 9 of the nine-entry `naltypes` | a chunk whose header byte is 0x09 (access unit delimiter) | look a name up only below 9, the table's length | not executed | NalHeader.NameGuardAdmitsIndexNine | NalHeader.NalTypeName |
