/** The specification of `read_packet` (hw_decode.c:157-199) on values: what one call
    leaves in the buffer and the tracker, and how that follows the pull of the tracker. */
module PacketSpec {
  import opened Bytes
  import opened Chunks
  import opened ChunkTracker

  /** libavutil's `AVERROR_EOF`: the negated tag 'E','O','F',' ' (0x45, 0x4F, 0x46, 0x20). */
  const AVERROR_EOF: int := -0x2046_4F45

  /** The outcome of one call: the return value, the buffer, and the tracker's queue and
      cursor. */
  datatype PacketRead = PacketRead(ret: int, buf: seq<byte>, chunks: seq<Chunk>, pos: nat)

  /** `b1` is `b` with `src` written over it from offset `at` on. */
  predicate Overwritten(b1: seq<byte>, b: seq<byte>, at: nat, src: seq<byte>) {
    && |b1| == |b| && at + |src| <= |b|
    && b1[..at] == b[..at] && b1[at..at + |src|] == src && b1[at + |src|..] == b[at + |src|..]
  }

  /** `b` with `src` written over it from offset `at` on: what `memcpy(&b[at], src, |src|)`
      leaves. */
  function Written(b: seq<byte>, at: nat, src: seq<byte>): seq<byte>
    requires at + |src| <= |b|
  {
    b[..at] + src + b[at + |src|..]
  }

  /** The copy changes exactly the |src| bytes from `at` on, into `src`. */
  lemma WrittenMeans(b: seq<byte>, at: nat, src: seq<byte>)
    requires at + |src| <= |b|
    ensures Overwritten(Written(b, at, src), b, at, src)
  {
    var b1 := Written(b, at, src);
    assert b1[..at] == b[..at];
    assert b1[at..at + |src|] == src;
    assert b1[at + |src|..] == b[at + |src|..];
  }

  /** Two copies, the second right after the first, write their concatenation. */
  lemma WrittenTwice(b: seq<byte>, at: nat, x: seq<byte>, y: seq<byte>)
    requires at + |x| + |y| <= |b|
    ensures Written(Written(b, at, x), at + |x|, y) == Written(b, at, x + y)
  {
    var c := Written(b, at, x);
    WrittenMeans(b, at, x);
    assert c[..at + |x|] == b[..at] + x;
    assert c[at + |x| + |y|..] == b[at + |x| + |y|..];
  }

  /** The first |h| + m bytes of h + t. */
  lemma PrefixConcat(h: seq<byte>, t: seq<byte>, m: nat)
    requires m <= |t|
    ensures (h + t)[..|h| + m] == h + t[..m]
  {
  }

  /** The rest of the loop of `read_packet` from a state where `bufpos` bytes are in the
      buffer and `bufleft` more are wanted from queue `cs` with cursor `pos`: with nothing
      wanted the loop ends and the call returns `AVERROR_EOF`; otherwise the head's
      unread part is copied, or as much of it as is wanted, and the call returns, or goes
      on with the next chunk. */
  function Loop(cs: seq<Chunk>, pos: nat, b: seq<byte>, bufpos: nat, bufleft: nat): (r: PacketRead)
    requires cs != [] && CursorOk(cs, pos) && bufpos + bufleft <= |b|
    ensures CursorOk(r.chunks, r.pos) && |r.buf| == |b|
    decreases |cs|
  {
    var left := |cs[0].data| - pos;
    if bufleft == 0 then PacketRead(AVERROR_EOF, b, cs, pos)
    else if left > bufleft then
      PacketRead(bufpos + bufleft, Written(b, bufpos, cs[0].data[pos..pos + bufleft]), cs, pos + bufleft)
    else
      var b1 := Written(b, bufpos, cs[0].data[pos..]);
      if left == bufleft then PacketRead(bufpos + bufleft, b1, cs[1..], 0)
      else if |cs| == 1 then PacketRead(bufpos + left, b1, [], 0)
      else Loop(cs[1..], 0, b1, bufpos + left, bufleft - left)
  }

  /** `read_packet` on values: `AVERROR_EOF` with nothing queued, else the loop from the
      start of the buffer with all `bufSize` bytes wanted. */
  function ReadPacketResult(cs: seq<Chunk>, pos: nat, b: seq<byte>, bufSize: nat): PacketRead
    requires CursorOk(cs, pos) && bufSize <= |b|
  {
    if cs == [] then PacketRead(AVERROR_EOF, b, cs, pos) else Loop(cs, pos, b, 0, bufSize)
  }

  /** The next n = min(bufleft, unread) unread bytes copied to offset `bufpos`, the call
      returning `bufpos + n`, with the tracker where a pull of `bufleft` bytes leaves it. */
  ghost predicate CopiesNext(cs: seq<Chunk>, pos: nat, b: seq<byte>, bufpos: nat, bufleft: nat, r: PacketRead)
    requires cs != [] && CursorOk(cs, pos) && bufpos + bufleft <= |b| && bufleft > 0
  {
    var u := Unread(cs, pos);
    var n := Min(bufleft, |u|);
    && r.ret == bufpos + n
    && r.buf == Written(b, bufpos, u[..n])
    && (r.chunks, r.pos) == AfterPull(cs, pos, bufleft)
  }

  /** A loop step that ends the call copies the next unread bytes. */
  lemma LoopEnds(cs: seq<Chunk>, pos: nat, b: seq<byte>, bufpos: nat, bufleft: nat)
    requires cs != [] && CursorOk(cs, pos) && bufpos + bufleft <= |b| && bufleft > 0
    requires |cs[0].data| - pos >= bufleft || |cs| == 1
    ensures CopiesNext(cs, pos, b, bufpos, bufleft, Loop(cs, pos, b, bufpos, bufleft))
  {
    var left := |cs[0].data| - pos;
    UnreadDropHead(cs, pos);
    if left > bufleft {
      UnreadAdvance(cs, pos, bufleft);
    } else if left == bufleft {
      assert Unread(cs, pos)[..bufleft] == cs[0].data[pos..];
    } else {
      assert Unread(cs, pos)[..left] == cs[0].data[pos..];
    }
  }

  /** One step of the loop: each way out, and the step to the next chunk, as it is written. */
  lemma LoopUnfold(cs: seq<Chunk>, pos: nat, b: seq<byte>, bufpos: nat, bufleft: nat)
    requires cs != [] && CursorOk(cs, pos) && bufpos + bufleft <= |b| && bufleft > 0
    ensures var left := |cs[0].data| - pos;
            left > bufleft ==>
              Loop(cs, pos, b, bufpos, bufleft)
              == PacketRead(bufpos + bufleft, Written(b, bufpos, cs[0].data[pos..pos + bufleft]), cs, pos + bufleft)
    ensures var left := |cs[0].data| - pos;
            left == bufleft ==>
              Loop(cs, pos, b, bufpos, bufleft) == PacketRead(bufpos + bufleft, Written(b, bufpos, cs[0].data[pos..]), cs[1..], 0)
    ensures var left := |cs[0].data| - pos;
            left < bufleft && |cs| == 1 ==>
              Loop(cs, pos, b, bufpos, bufleft) == PacketRead(bufpos + left, Written(b, bufpos, cs[0].data[pos..]), [], 0)
    ensures var left := |cs[0].data| - pos;
            left < bufleft && |cs| > 1 ==>
              Loop(cs, pos, b, bufpos, bufleft)
              == Loop(cs[1..], 0, Written(b, bufpos, cs[0].data[pos..]), bufpos + left, bufleft - left)
  {
  }

  /** A loop step that goes on to the next chunk: the head's unread part, then what the rest
      of the loop copies, is the next unread bytes. */
  lemma LoopGoesOn(cs: seq<Chunk>, pos: nat, b: seq<byte>, bufpos: nat, bufleft: nat, r: PacketRead)
    requires cs != [] && CursorOk(cs, pos) && bufpos + bufleft <= |b|
    requires |cs[0].data| - pos < bufleft && |cs| > 1
    requires var left := |cs[0].data| - pos;
             CopiesNext(cs[1..], 0, Written(b, bufpos, cs[0].data[pos..]), bufpos + left, bufleft - left, r)
    ensures CopiesNext(cs, pos, b, bufpos, bufleft, r)
  {
    var left := |cs[0].data| - pos;
    var h := cs[0].data[pos..];
    var t := Unread(cs[1..], 0);
    var m := Min(bufleft - left, |t|);
    assert AfterPull(cs, pos, bufleft) == AfterPull(cs[1..], 0, bufleft - left);
    UnreadDropHead(cs, pos);
    var u := Unread(cs, pos);
    assert u == h + t;
    assert Min(bufleft, |u|) == left + m;
    PrefixConcat(h, t, m);
    WrittenTwice(b, bufpos, h, t[..m]);
  }

  /** Once anything is wanted, the loop copies the next n = min(bufleft, unread) unread
      bytes to offset `bufpos`, returns `bufpos + n`, and leaves the tracker where a pull
      of `bufleft` bytes does. */
  lemma {:induction false} LoopCopies(cs: seq<Chunk>, pos: nat, b: seq<byte>, bufpos: nat, bufleft: nat)
    requires cs != [] && CursorOk(cs, pos) && bufpos + bufleft <= |b| && bufleft > 0
    ensures CopiesNext(cs, pos, b, bufpos, bufleft, Loop(cs, pos, b, bufpos, bufleft))
    decreases |cs|
  {
    var left := |cs[0].data| - pos;
    if left >= bufleft || |cs| == 1 {
      LoopEnds(cs, pos, b, bufpos, bufleft);
    } else {
      var b1 := Written(b, bufpos, cs[0].data[pos..]);
      LoopCopies(cs[1..], 0, b1, bufpos + left, bufleft - left);
      LoopUnfold(cs, pos, b, bufpos, bufleft);
      LoopGoesOn(cs, pos, b, bufpos, bufleft, Loop(cs[1..], 0, b1, bufpos + left, bufleft - left));
    }
  }

  /** What `read_packet` promises. With nothing queued, or nothing asked for, it returns
      `AVERROR_EOF` and changes nothing. Otherwise it returns n = min(bufSize, unread):
      the buffer then starts with the first n unread bytes and is untouched after them,
      exactly the bytes after those stay readable, and the tracker is where pulling
      `bufSize` bytes leaves it: a request inside the head only moves the cursor, one that
      uses the head up exactly drops it, and one larger than all that was queued returns
      fewer bytes than asked and empties the tracker. */
  lemma ReadPacketPulls(cs: seq<Chunk>, pos: nat, b: seq<byte>, bufSize: nat)
    requires CursorOk(cs, pos) && bufSize <= |b|
    ensures var r := ReadPacketResult(cs, pos, b, bufSize);
            cs == [] || bufSize == 0 ==> r == PacketRead(AVERROR_EOF, b, cs, pos)
    ensures var r := ReadPacketResult(cs, pos, b, bufSize);
            var u := Unread(cs, pos);
            cs != [] && bufSize > 0 ==>
              && r.ret == Min(bufSize, |u|) && |r.buf| == |b|
              && r.buf[..r.ret] == u[..r.ret] && r.buf[r.ret..] == b[r.ret..]
              && CursorOk(r.chunks, r.pos) && Unread(r.chunks, r.pos) == u[r.ret..]
              && (r.chunks, r.pos) == AfterPull(cs, pos, bufSize)
              && (bufSize < |cs[0].data| - pos ==> r.chunks == cs && r.pos == pos + bufSize)
              && (bufSize == |cs[0].data| - pos ==> r.chunks == cs[1..] && r.pos == 0)
              && (bufSize > |u| ==> r.ret < bufSize && r.chunks == [] && r.pos == 0)
  {
    if cs != [] && bufSize > 0 {
      var u := Unread(cs, pos);
      var n := Min(bufSize, |u|);
      LoopCopies(cs, pos, b, 0, bufSize);
      WrittenMeans(b, 0, u[..n]);
      PullConserves(cs, pos, bufSize);
      var left := |cs[0].data| - pos;
      if bufSize < left {
        PullWithinHead(cs, pos, bufSize);
      } else if bufSize == left {
        PullEndsHead(cs, pos, bufSize);
      }
    }
  }
}
