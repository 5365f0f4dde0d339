/** The tracker-facing parts of hw_decode.c: `read_packet`, the callback through which the
    demuxer pulls H.264 bytes out of a tracker into its I/O buffer, the creation of that
    tracker in `new_memory_ctx`, and the `oneout` counter by which `process_frame` keeps
    one decoded frame in three. The decoding and JPEG compression are library calls and
    appear here only through the return codes they hand back. */
module HwDecode {
  import opened Bytes
  import opened Chunks
  import opened ChunkTracker
  import opened PacketSpec

  /** Size of the I/O buffer `new_memory_ctx` gives the demuxer (hw_decode.c:210). */
  const AvioBufferSize: nat := 50000

  // ---------------------------------------------------------------------------------
  // read_packet (hw_decode.c:157-199)
  // ---------------------------------------------------------------------------------

  /** `memcpy(&buf[at], src, |src|)`. */
  method Copy(buf: array<byte>, at: nat, src: seq<byte>)
    requires at + |src| <= buf.Length
    modifies buf
    ensures buf[..] == Written(old(buf[..]), at, src)
  {
    forall i | 0 <= i < |src| {
      buf[at + i] := src[i];
    }
    WrittenMeans(old(buf[..]), at, src);
  }

  /** `read_packet`: copies up to `bufSize` unread bytes of the tracker into `buf`, across
      chunk boundaries, dropping every chunk it uses up; what it returns and leaves is
      `ReadPacketResult`, whose meaning `ReadPacketPulls` states. */
  method ReadPacket(tracker: Tracker, buf: array<byte>, bufSize: nat) returns (ret: int)
    requires tracker.Valid() && bufSize <= buf.Length
    modifies tracker, buf
    ensures tracker.Valid()
    ensures PacketRead(ret, buf[..], tracker.chunks, tracker.pos)
            == ReadPacketResult(old(tracker.chunks), old(tracker.pos), old(buf[..]), bufSize)
  {
    if tracker.chunks == [] {
      return AVERROR_EOF;
    }
    ghost var result := ReadPacketResult(tracker.chunks, tracker.pos, buf[..], bufSize);
    var bufpos: nat := 0;
    var bufleft: nat := bufSize;
    var chunkleft: nat := |tracker.chunks[0].data| - tracker.pos;
    while bufleft != 0
      invariant tracker.chunks != [] && CursorOk(tracker.chunks, tracker.pos)
      invariant chunkleft == |tracker.chunks[0].data| - tracker.pos
      invariant bufpos + bufleft == bufSize
      invariant Loop(tracker.chunks, tracker.pos, buf[..], bufpos, bufleft) == result
      decreases |tracker.chunks|
    {
      var cur := tracker.chunks[0];
      var p := tracker.pos;
      var cs := tracker.chunks;
      ghost var b := buf[..];
      assert cs[0] == cur && chunkleft == |cur.data| - p;
      LoopUnfold(cs, p, b, bufpos, bufleft);
      if chunkleft > bufleft {
        Copy(buf, bufpos, cur.data[p..p + bufleft]);
        tracker.pos := p + bufleft;
        return bufSize;
      }
      Copy(buf, bufpos, cur.data[p..]);
      ghost var b1 := buf[..];
      bufpos := bufpos + chunkleft;
      tracker.chunks := cs[1..];
      tracker.pos := 0;
      if chunkleft == bufleft {
        return bufSize;
      }
      if tracker.chunks == [] {
        return bufpos;
      }
      bufleft := bufleft - chunkleft;
      chunkleft := |tracker.chunks[0].data|;
      assert Loop(tracker.chunks, 0, b1, bufpos, bufleft) == result;
    }
    return AVERROR_EOF;
  }

  // ---------------------------------------------------------------------------------
  // new_memory_ctx (hw_decode.c:202-227)
  // ---------------------------------------------------------------------------------

  /** `new_memory_ctx`: a new tracker with no chunk and cursor 0, wired to `read_packet`
      through an I/O buffer of `AvioBufferSize` bytes. The three libav allocations are
      given by whether they succeed; if any fails there is no context and no tracker is
      handed back. */
  method NewMemoryContext(bufferAllocated: bool, ioAllocated: bool, formatAllocated: bool)
    returns (tracker: Tracker?, bufferSize: nat)
    ensures (tracker != null) == (bufferAllocated && ioAllocated && formatAllocated)
    ensures tracker != null ==>
              fresh(tracker) && tracker.Valid() && tracker.chunks == [] && tracker.pos == 0
              && tracker.Readable() == [] && bufferSize == AvioBufferSize
    ensures tracker == null ==> bufferSize == 0
  {
    var t := new Tracker();
    if !bufferAllocated || !ioAllocated || !formatAllocated {
      return null, 0;
    }
    return t, AvioBufferSize;
  }

  // ---------------------------------------------------------------------------------
  // One frame in three (hw_decode.c:59-121)
  // ---------------------------------------------------------------------------------

  /** What the library calls of one `process_frame` call return: `avcodec_send_packet`,
      whether both `av_frame_alloc` calls succeed, and `avcodec_receive_frame`. */
  datatype Attempt = Attempt(sendRet: int, framesAllocated: bool, receiveRet: int)

  /** The call reaches `oneout++`: the packet was accepted and both frames allocated. */
  predicate Counted(a: Attempt) {
    a.sendRet >= 0 && a.framesAllocated
  }

  /** The counter after one call. */
  function Next(oneout: nat, a: Attempt): nat {
    if Counted(a) then oneout + 1 else oneout
  }

  /** A call returns a JPEG exactly when it is counted, the incremented counter is a multiple
      of 3, and a frame was received (`EAGAIN`, `AVERROR_EOF` and every other error are
      negative). */
  predicate Produces(oneout: nat, a: Attempt) {
    Counted(a) && (oneout + 1) % 3 == 0 && a.receiveRet >= 0
  }

  /** The global `oneout` with `process_frame`. */
  class FrameCounter {
    var oneout: nat

    /** `int oneout = 0;` (hw_decode.c:30). */
    constructor ()
      ensures oneout == 0
    {
      oneout := 0;
    }

    /** `process_frame` seen through its counter: returns whether it hands back a JPEG. */
    method ProcessFrame(a: Attempt) returns (jpeg: bool)
      modifies this
      ensures oneout == Next(old(oneout), a)
      ensures jpeg == Produces(old(oneout), a)
      ensures jpeg ==> oneout % 3 == 0
    {
      if a.sendRet < 0 {
        return false;
      }
      if !a.framesAllocated {
        return false;
      }
      oneout := oneout + 1;
      if oneout % 3 != 0 {
        return false;
      }
      if a.receiveRet < 0 {
        return false;
      }
      return true;
    }
  }

  /** Counter and number of JPEGs after a run of calls starting from counter `oneout`. */
  function Outputs(oneout: nat, attempts: seq<Attempt>): (nat, nat)
    decreases |attempts|
  {
    if attempts == [] then (oneout, 0)
    else
      var r := Outputs(Next(oneout, attempts[0]), attempts[1..]);
      (r.0, r.1 + if Produces(oneout, attempts[0]) then 1 else 0)
  }

  /** The calls that reach the counter. */
  function CountedCalls(attempts: seq<Attempt>): nat
    decreases |attempts|
  {
    if attempts == [] then 0 else (if Counted(attempts[0]) then 1 else 0) + CountedCalls(attempts[1..])
  }

  /** Over any run of calls the counter grows by the number of calls that reach it, and at
      most one JPEG comes out per multiple of 3 it passes: of the calls that get a frame
      decoded, two in three are thrown away. */
  lemma {:induction false} OutputsEveryThird(oneout: nat, attempts: seq<Attempt>)
    ensures var r := Outputs(oneout, attempts);
            && r.0 == oneout + CountedCalls(attempts)
            && r.1 <= r.0 / 3 - oneout / 3
    decreases |attempts|
  {
    if attempts != [] {
      var a := attempts[0];
      OutputsEveryThird(Next(oneout, a), attempts[1..]);
      if Counted(a) {
        if (oneout + 1) % 3 == 0 {
          assert (oneout + 1) / 3 == oneout / 3 + 1;
        } else {
          assert (oneout + 1) / 3 == oneout / 3;
        }
      }
    }
  }

  /** When every call is counted and gets a frame, exactly one JPEG comes out per multiple
      of 3 the counter passes. */
  lemma {:induction false} OutputsExactlyEveryThird(oneout: nat, attempts: seq<Attempt>)
    requires forall i :: 0 <= i < |attempts| ==> Counted(attempts[i]) && attempts[i].receiveRet >= 0
    ensures var r := Outputs(oneout, attempts);
            r.0 == oneout + |attempts| && r.1 == r.0 / 3 - oneout / 3
    decreases |attempts|
  {
    if attempts != [] {
      OutputsExactlyEveryThird(oneout + 1, attempts[1..]);
      if (oneout + 1) % 3 == 0 {
        assert (oneout + 1) / 3 == oneout / 3 + 1;
      } else {
        assert (oneout + 1) / 3 == oneout / 3;
      }
    }
  }
}
