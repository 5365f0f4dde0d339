/** The chunk of chunk.h and the two ways tracker.h builds one: from a length-prefixed
    record of an H.264 file (`read_chunk`) and from a message taken off a transport
    (`myzmq__recv_chunk`, `mynano__recv_chunk`, reduced to what they do with the bytes). */
module Chunks {
  import opened Bytes

  /** The byte-stream start code of ITU-T H.264, Annex B, section B.1. */
  const StartCode: seq<byte> := [0, 0, 0, 1]

  /** Largest value the chunk's `uint32_t size` field can hold. */
  const MaxSize: nat := 0xFFFF_FFFF

  /** One buffered unit (chunk.h:8-17): its bytes, whose count is its `size` field, and the
      raw type byte its constructor captured. The allocation tag, the `easyType` and
      `time` fields and the `next` link are not part of the value. */
  datatype Chunk = Chunk(data: seq<byte>, typeByte: byte) {
    function Size(): nat { |data| }
  }

  /** A chunk that really carries a type byte: the byte after the four-byte prefix. */
  predicate HasTypeByte(c: Chunk) {
    |c.data| >= 5 && c.typeByte == c.data[4]
  }

  /** A chunk that a record of the file format describes: start code, type byte, and a size
      that fits the `uint32_t` field. */
  predicate IsRecordChunk(c: Chunk) {
    HasTypeByte(c) && |c.data| <= MaxSize && c.data[..4] == StartCode
  }

  // ---------------------------------------------------------------------------------
  // What the source builds, before anyone looks at the type byte
  // ---------------------------------------------------------------------------------

  /** The chunk the source allocates, seen before its type is read: the `size` it records
      (None when that size came from bytes that were never read) and the bytes actually
      stored into its buffer from the input. */
  datatype RawRecord = RawRecord(size: Option<nat>, stored: seq<byte>)

  /** Every byte the recorded size covers came from the input, and offset 4, where the
      type is read, is among them. */
  predicate Complete(r: RawRecord) {
    r.size == Some(|r.stored|) && |r.stored| >= 5
  }

  /** One result of reading the file: the record built (if any) and the unread input. */
  datatype RawRead = RawRead(record: Option<RawRecord>, rest: seq<byte>)

  /** `read_chunk` (tracker.h:273-294) as written: the magic is checked, but neither the
      read of the length field nor the read of the payload is, and the size is computed
      in `uint32_t`. A short `fread` still consumes what is there. */
  function ReadChunkAsWritten(s: seq<byte>): (r: RawRead)
    ensures r.record.Some? <==> |s| >= 4 && s[..4] == StartCode
    ensures |s| >= 8 && s[..4] == StartCode ==>
              && r.record.value.size == Some((BigEndian32(s[4..8]) + 4) % U32Limit)
              && r.record.value.stored == StartCode + s[8..8 + Min(BigEndian32(s[4..8]), |s| - 8)]
  {
    if |s| < 4 then RawRead(None, [])
    else if s[..4] != StartCode then RawRead(None, s[4..])
    else if |s| < 8 then RawRead(Some(RawRecord(None, StartCode)), [])
    else
      var len := BigEndian32(s[4..8]);
      var got := Min(len, |s| - 8);
      RawRead(Some(RawRecord(Some((len + 4) % U32Limit), StartCode + s[8..8 + got])), s[8 + got..])
  }

  /** A record whose payload is cut short by the end of the file: the chunk records size 9
      but only five of its bytes came from the input. */
  lemma TruncatedRecordIsIncomplete()
    ensures var r := ReadChunkAsWritten([0, 0, 0, 1, 0, 0, 0, 5, 0x65]);
            r.record == Some(RawRecord(Some(9), [0, 0, 0, 1, 0x65])) && !Complete(r.record.value)
  {
    var s: seq<byte> := [0, 0, 0, 1, 0, 0, 0, 5, 0x65];
    assert s[..4] == StartCode;
    assert s[4..8] == [0, 0, 0, 5];
    assert BigEndian32(s[4..8]) == 5;
    assert StartCode + s[8..9] == [0, 0, 0, 1, 0x65];
    assert ReadChunkAsWritten(s).record == Some(RawRecord(Some(9), [0, 0, 0, 1, 0x65]));
  }

  /** A record of length zero: the chunk's buffer holds four bytes, yet its type is read
      at offset 4. */
  lemma EmptyPayloadIsIncomplete()
    ensures var r := ReadChunkAsWritten([0, 0, 0, 1, 0, 0, 0, 0]);
            r.record == Some(RawRecord(Some(4), StartCode)) && !Complete(r.record.value)
  {
    var s: seq<byte> := [0, 0, 0, 1, 0, 0, 0, 0];
    assert s[..4] == StartCode;
    assert s[4..8] == [0, 0, 0, 0];
    assert BigEndian32(s[4..8]) == 0;
    assert StartCode + s[8..8] == StartCode;
    assert ReadChunkAsWritten(s).record == Some(RawRecord(Some(4), StartCode));
  }

  /** A length field of 0xFFFFFFFC: `size + 4` wraps to 0, so the buffer is allocated with
      no room for the four start-code bytes written into it. */
  lemma LengthNearLimitWraps()
    ensures var r := ReadChunkAsWritten([0, 0, 0, 1, 0xFF, 0xFF, 0xFF, 0xFC]);
            r.record == Some(RawRecord(Some(0), StartCode)) && !Complete(r.record.value)
  {
    var s: seq<byte> := [0, 0, 0, 1, 0xFF, 0xFF, 0xFF, 0xFC];
    assert s[..4] == StartCode;
    assert s[4..8] == [0xFF, 0xFF, 0xFF, 0xFC];
    assert BigEndian32(s[4..8]) == 0xFFFF_FFFC;
    assert StartCode + s[8..8] == StartCode;
    assert ReadChunkAsWritten(s).record == Some(RawRecord(Some(0), StartCode));
  }

  // ---------------------------------------------------------------------------------
  // Reading a record of the file, with the unchecked cases rejected
  // ---------------------------------------------------------------------------------

  /** One result of reading the file: the chunk (None where the source returns NULL) and
      the unread input. */
  datatype ReadResult = ReadResult(chunk: Option<Chunk>, rest: seq<byte>)

  /** The record that describes a chunk: start code, the payload length as a big-endian
      `uint32_t`, then the payload (everything after the chunk's start code). */
  function Encode(c: Chunk): (e: seq<byte>)
    requires IsRecordChunk(c)
    ensures |e| == |c.data| + 4 && e[..4] == StartCode
  {
    StartCode + ToBigEndian32(|c.data| - 4) + c.data[4..]
  }

  /** `read_chunk` (tracker.h:273-294) over the bytes of the file: NULL when fewer than
      four bytes remain or they are not the start code; otherwise the chunk is the start
      code followed by the `len` payload bytes, its size `len + 4` and its type the first
      payload byte. Where the source reads past what it has (a cut-off length field or
      payload, a zero length, a size that wraps) this yields NULL too. */
  function ReadChunk(s: seq<byte>): (r: ReadResult)
    ensures |r.rest| <= |s| && (r.chunk.Some? ==> |r.rest| < |s|)
    ensures |s| < 4 || s[..4] != StartCode ==> r.chunk.None?
  {
    if |s| < 4 then ReadResult(None, [])
    else if s[..4] != StartCode then ReadResult(None, s[4..])
    else if |s| < 8 then ReadResult(None, [])
    else
      var len := BigEndian32(s[4..8]);
      var got := Min(len, |s| - 8);
      if 0 < len == got && len + 4 <= MaxSize then
        ReadResult(Some(Chunk(StartCode + s[8..8 + len], s[8])), s[8 + len..])
      else ReadResult(None, s[8 + got..])
  }

  /** What `ReadChunk` consumes is a prefix of the file, and a chunk it returns is one the
      format describes, whose record is exactly that prefix, of the size its length field
      gives. */
  lemma ReadChunkDecodes(s: seq<byte>)
    ensures var r := ReadChunk(s);
            && r.rest == s[|s| - |r.rest|..]
            && (r.chunk.Some? ==> IsRecordChunk(r.chunk.value) && s == Encode(r.chunk.value) + r.rest)
            && (r.chunk.Some? ==> |s| >= 8 && |r.chunk.value.data| == BigEndian32(s[4..8]) + 4)
  {
    if |s| >= 8 && s[..4] == StartCode {
      var len := BigEndian32(s[4..8]);
      if 0 < len <= |s| - 8 && len + 4 <= MaxSize {
        var c := Chunk(StartCode + s[8..8 + len], s[8]);
        assert c.data[4..] == s[8..8 + len];
        BigEndian32Inverse(s[4..8]);
        assert s == s[..4] + s[4..8] + s[8..8 + len] + s[8 + len..];
      }
    }
  }

  /** Reading back the record of a chunk yields that chunk and leaves what follows it. */
  lemma ReadChunkEncode(c: Chunk, t: seq<byte>)
    requires IsRecordChunk(c)
    ensures ReadChunk(Encode(c) + t) == ReadResult(Some(c), t)
  {
    var s := Encode(c) + t;
    var len := |c.data| - 4;
    assert s[..4] == StartCode;
    assert s[4..8] == ToBigEndian32(len);
    assert s[8..8 + len] == c.data[4..];
    assert StartCode + c.data[4..] == c.data[..4] + c.data[4..] == c.data;
    assert s[8 + len..] == t;
  }

  /** The corrected reader consumes exactly what the source does, and returns a chunk
      precisely when the record the source builds is complete, with the same bytes. */
  lemma ReadChunkAgreesWhereComplete(s: seq<byte>)
    ensures ReadChunk(s).rest == ReadChunkAsWritten(s).rest
    ensures ReadChunk(s).chunk.Some? <==>
              ReadChunkAsWritten(s).record.Some? && Complete(ReadChunkAsWritten(s).record.value)
    ensures ReadChunk(s).chunk.Some? ==>
              ReadChunk(s).chunk.value.data == ReadChunkAsWritten(s).record.value.stored
  {
    if |s| >= 8 && s[..4] == StartCode {
      var len := BigEndian32(s[4..8]);
      var got := Min(len, |s| - 8);
      assert |StartCode + s[8..8 + got]| == 4 + got;
      if len + 4 >= U32Limit {
        assert (len + 4) % U32Limit == len + 4 - U32Limit;
      } else {
        assert (len + 4) % U32Limit == len + 4;
      }
    }
  }

  // ---------------------------------------------------------------------------------
  // A chunk from a transport message
  // ---------------------------------------------------------------------------------

  /** What one receive call yields: a message, possibly empty, or a failed call. */
  datatype Received = Message(bytes: seq<byte>) | Failed

  /** The receive functions (tracker.h:69-86, 92-107) as written, reduced to the bytes:
      an empty message or a failed call gives NULL, any other message becomes a chunk of its
      full size, whose type is then read at offset 4. */
  function ReceiveAsWritten(m: Received): (r: Option<RawRecord>)
    ensures r.Some? <==> m.Message? && m.bytes != []
    ensures r.Some? ==> r.value.size == Some(|m.bytes|) && r.value.stored == m.bytes
  {
    match m
    case Failed => None
    case Message(b) => if b == [] then None else Some(RawRecord(Some(|b|), b))
  }

  /** A four-byte message (what a zero-length record of the file becomes when it is sent on)
      is accepted, yet it has no byte at offset 4. */
  lemma ShortMessageIsIncomplete()
    ensures var r := ReceiveAsWritten(Message(StartCode)); r.Some? && !Complete(r.value)
  {
  }

  /** A received message as a chunk: NULL for a failed or empty receive, and, unlike the
      source, for a message too short to hold a type byte; otherwise the whole message is
      the chunk's data and its type is the byte at offset 4 (tracker.h:79-81, 101-103). */
  function Receive(m: Received): (r: Option<Chunk>)
    ensures r.Some? <==> m.Message? && |m.bytes| >= 5
    ensures r.Some? ==> r.value.data == m.bytes && HasTypeByte(r.value)
  {
    match m
    case Failed => None
    case Message(b) => if |b| < 5 then None else Some(Chunk(b, b[4]))
  }

  /** Receive differs from the source only where the source's chunk is incomplete. */
  lemma ReceiveAgreesWhereComplete(m: Received)
    ensures Receive(m).Some? <==> ReceiveAsWritten(m).Some? && Complete(ReceiveAsWritten(m).value)
  {
  }

  /** Sending a chunk's data as one message and receiving it gives back the chunk. */
  lemma ReceiveSentChunk(c: Chunk)
    requires HasTypeByte(c)
    ensures Receive(Message(c.data)) == Some(c)
  {
  }
}
