/** The chunk tracker of tracker.h: a FIFO of chunks plus a read offset `pos` into the
    head chunk (chunk.h:3-6), the operations that fill it from a file or a transport and
    drain it onto a transport, and the specification of pulling bytes out of it, which
    hw_decode.c's `read_packet` implements. The linked list of the source is a sequence
    here: `curchunk` is its first element, following `next` is moving to the next one. */
module ChunkTracker {
  import opened Bytes
  import opened Chunks

  /** All bytes of the queued chunks, in queue order. */
  function Flatten(cs: seq<Chunk>): seq<byte>
    decreases |cs|
  {
    if cs == [] then [] else cs[0].data + Flatten(cs[1..])
  }

  /** The tracker's invariant: `pos` lies within the head chunk, and is 0 when there is none. */
  predicate CursorOk(cs: seq<Chunk>, pos: nat) {
    if cs == [] then pos == 0 else pos <= |cs[0].data|
  }

  /** The bytes a reader can still pull: the head chunk from `pos` on, then every later chunk. */
  function Unread(cs: seq<Chunk>, pos: nat): seq<byte>
    requires CursorOk(cs, pos)
  {
    if cs == [] then [] else cs[0].data[pos..] + Flatten(cs[1..])
  }

  lemma {:induction false} FlattenAppend(cs: seq<Chunk>, c: Chunk)
    ensures Flatten(cs + [c]) == Flatten(cs) + c.data
    decreases |cs|
  {
    if cs == [] {
      assert [c][1..] == [];
    } else {
      assert (cs + [c])[1..] == cs[1..] + [c];
      FlattenAppend(cs[1..], c);
    }
  }

  /** With the cursor at the start of the head, everything queued is unread. */
  lemma UnreadFromStart(cs: seq<Chunk>)
    ensures Unread(cs, 0) == Flatten(cs)
  {
    if cs != [] {
      assert cs[0].data[0..] == cs[0].data;
    }
  }

  /** The unread bytes are the flattened queue with the first `pos` bytes skipped: `pos` is
      an offset into the byte stream the queue stands for. */
  lemma UnreadIsSuffix(cs: seq<Chunk>, pos: nat)
    requires CursorOk(cs, pos)
    ensures pos <= |Flatten(cs)| && Unread(cs, pos) == Flatten(cs)[pos..]
  {
    if cs != [] {
      assert Flatten(cs) == cs[0].data + Flatten(cs[1..]);
      assert (cs[0].data + Flatten(cs[1..]))[pos..] == cs[0].data[pos..] + Flatten(cs[1..]);
    }
  }

  /** Appending a chunk makes its bytes readable after everything already unread. */
  lemma UnreadAppend(cs: seq<Chunk>, pos: nat, c: Chunk)
    requires CursorOk(cs, pos)
    ensures CursorOk(cs + [c], pos)
    ensures Unread(cs + [c], pos) == Unread(cs, pos) + c.data
  {
    if cs == [] {
      assert [c][1..] == [];
      assert c.data[0..] == c.data;
    } else {
      assert (cs + [c])[1..] == cs[1..] + [c];
      FlattenAppend(cs[1..], c);
    }
  }

  /** The bytes of two queues one after the other. */
  lemma {:induction false} FlattenConcat(cs: seq<Chunk>, ds: seq<Chunk>)
    ensures Flatten(cs + ds) == Flatten(cs) + Flatten(ds)
    decreases |cs|
  {
    if cs == [] {
      assert cs + ds == ds;
    } else {
      assert (cs + ds)[1..] == cs[1..] + ds;
      FlattenConcat(cs[1..], ds);
    }
  }

  /** Appending a run of chunks makes their bytes readable after everything already unread. */
  lemma UnreadConcat(cs: seq<Chunk>, pos: nat, ds: seq<Chunk>)
    requires CursorOk(cs, pos)
    ensures CursorOk(cs + ds, pos)
    ensures Unread(cs + ds, pos) == Unread(cs, pos) + Flatten(ds)
  {
    if cs == [] {
      assert cs + ds == ds;
      UnreadFromStart(ds);
    } else {
      assert (cs + ds)[1..] == cs[1..] + ds;
      FlattenConcat(cs[1..], ds);
    }
  }

  /** Moving the cursor `k` bytes within the head chunk skips exactly those `k` bytes. */
  lemma UnreadAdvance(cs: seq<Chunk>, pos: nat, k: nat)
    requires cs != [] && CursorOk(cs, pos) && pos + k <= |cs[0].data|
    ensures CursorOk(cs, pos + k)
    ensures |Unread(cs, pos)| >= k
    ensures Unread(cs, pos)[..k] == cs[0].data[pos..pos + k]
    ensures Unread(cs, pos)[k..] == Unread(cs, pos + k)
  {
    var d, f := cs[0].data, Flatten(cs[1..]);
    var skipped, kept := d[pos..pos + k], d[pos + k..];
    assert d[pos..] == skipped + kept;
    assert Unread(cs, pos) == skipped + (kept + f);
    assert (skipped + (kept + f))[..k] == skipped && (skipped + (kept + f))[k..] == kept + f;
    assert Unread(cs, pos + k) == kept + f;
  }

  /** Dropping the head chunk skips what was left of it. */
  lemma UnreadDropHead(cs: seq<Chunk>, pos: nat)
    requires cs != [] && CursorOk(cs, pos)
    ensures CursorOk(cs[1..], 0)
    ensures Unread(cs, pos) == cs[0].data[pos..] + Unread(cs[1..], 0)
  {
    UnreadFromStart(cs[1..]);
  }

  // ---------------------------------------------------------------------------------
  // Pulling bytes (the specification of read_packet, hw_decode.c:157-199)
  // ---------------------------------------------------------------------------------

  /** Queue and cursor after pulling `want > 0` bytes: inside the head chunk the cursor
      moves; a head that is used up exactly is dropped and the cursor reset; a head that
      is too short is dropped and the rest of the request goes to the next chunk, or,
      when there is none, the queue ends empty. */
  function AfterPull(cs: seq<Chunk>, pos: nat, want: nat): (r: (seq<Chunk>, nat))
    requires cs != [] && CursorOk(cs, pos) && want > 0
    ensures CursorOk(r.0, r.1)
    decreases |cs|
  {
    var left := |cs[0].data| - pos;
    if left > want then (cs, pos + want)
    else if left == want then (cs[1..], 0)
    else if |cs| == 1 then ([], 0)
    else AfterPull(cs[1..], 0, want - left)
  }

  /** Conservation: a pull of `want` bytes takes the first min(want, unread) unread bytes
      and leaves exactly the rest readable; when fewer than `want` bytes were queued the
      tracker ends empty with its cursor at 0. */
  lemma {:induction false} PullConserves(cs: seq<Chunk>, pos: nat, want: nat)
    requires cs != [] && CursorOk(cs, pos) && want > 0
    ensures var r := AfterPull(cs, pos, want);
            Unread(r.0, r.1) == Unread(cs, pos)[Min(want, |Unread(cs, pos)|)..]
    ensures |Unread(cs, pos)| < want ==> AfterPull(cs, pos, want) == ([], 0)
    decreases |cs|
  {
    var left := |cs[0].data| - pos;
    if left > want {
      PullWithinHead(cs, pos, want);
    } else if left == want {
      PullEndsHead(cs, pos, want);
    } else if |cs| == 1 {
      PullEmptiesQueue(cs, pos, want);
    } else {
      PullConserves(cs[1..], 0, want - left);
      PullCrossesHead(cs, pos, want);
    }
  }

  lemma PullWithinHead(cs: seq<Chunk>, pos: nat, want: nat)
    requires cs != [] && CursorOk(cs, pos) && 0 < want < |cs[0].data| - pos
    ensures AfterPull(cs, pos, want) == (cs, pos + want)
    ensures |Unread(cs, pos)| > want
    ensures Unread(cs, pos + want) == Unread(cs, pos)[want..]
  {
    UnreadAdvance(cs, pos, want);
  }

  lemma PullEndsHead(cs: seq<Chunk>, pos: nat, want: nat)
    requires cs != [] && CursorOk(cs, pos) && 0 < want == |cs[0].data| - pos
    ensures AfterPull(cs, pos, want) == (cs[1..], 0)
    ensures |Unread(cs, pos)| >= want
    ensures Unread(cs[1..], 0) == Unread(cs, pos)[want..]
  {
    UnreadDropHead(cs, pos);
  }

  lemma PullEmptiesQueue(cs: seq<Chunk>, pos: nat, want: nat)
    requires |cs| == 1 && CursorOk(cs, pos) && |cs[0].data| - pos < want
    ensures AfterPull(cs, pos, want) == ([], 0)
    ensures |Unread(cs, pos)| < want
  {
    assert cs[1..] == [];
  }

  lemma PullCrossesHead(cs: seq<Chunk>, pos: nat, want: nat)
    requires |cs| > 1 && CursorOk(cs, pos) && |cs[0].data| - pos < want
    requires var r := AfterPull(cs[1..], 0, want - (|cs[0].data| - pos));
             Unread(r.0, r.1) == Unread(cs[1..], 0)[Min(want - (|cs[0].data| - pos), |Unread(cs[1..], 0)|)..]
    requires |Unread(cs[1..], 0)| < want - (|cs[0].data| - pos) ==> AfterPull(cs[1..], 0, want - (|cs[0].data| - pos)) == ([], 0)
    ensures var r := AfterPull(cs, pos, want);
            Unread(r.0, r.1) == Unread(cs, pos)[Min(want, |Unread(cs, pos)|)..]
    ensures |Unread(cs, pos)| < want ==> AfterPull(cs, pos, want) == ([], 0)
  {
    var left := |cs[0].data| - pos;
    var r := AfterPull(cs[1..], 0, want - left);
    assert AfterPull(cs, pos, want) == r;
    var head := cs[0].data[pos..];
    var u' := Unread(cs[1..], 0);
    UnreadDropHead(cs, pos);
    SkipConcat(head, u', Min(want - left, |u'|));
  }

  /** Skipping past all of `a` and then `m` bytes of `b`. */
  lemma SkipConcat(a: seq<byte>, b: seq<byte>, m: nat)
    requires m <= |b|
    ensures (a + b)[|a| + m..] == b[m..]
  {
  }

  /** The requests of several pulls, one after another; a request with nothing queued, or
      for zero bytes, returns nothing and leaves the queue as it was. */
  function PullAll(cs: seq<Chunk>, pos: nat, wants: seq<nat>): (r: (seq<byte>, seq<Chunk>, nat))
    requires CursorOk(cs, pos)
    ensures CursorOk(r.1, r.2)
    decreases |wants|
  {
    if wants == [] then ([], cs, pos)
    else if cs == [] || wants[0] == 0 then PullAll(cs, pos, wants[1..])
    else
      var u := Unread(cs, pos);
      var n := Min(wants[0], |u|);
      var s := AfterPull(cs, pos, wants[0]);
      var rest := PullAll(s.0, s.1, wants[1..]);
      (u[..n] + rest.0, rest.1, rest.2)
  }

  /** Successive pulls return, together, a prefix of the unread bytes as long as the
      requests allow (or all of them), and leave exactly the rest readable. */
  lemma {:induction false} PullAllReturnsStream(cs: seq<Chunk>, pos: nat, wants: seq<nat>)
    requires CursorOk(cs, pos)
    ensures var r := PullAll(cs, pos, wants);
            && r.0 + Unread(r.1, r.2) == Unread(cs, pos)
            && |r.0| == Min(Sum(wants), |Unread(cs, pos)|)
    decreases |wants|
  {
    if wants == [] {
    } else if cs == [] || wants[0] == 0 {
      PullAllReturnsStream(cs, pos, wants[1..]);
      assert Sum(wants) == wants[0] + Sum(wants[1..]);
    } else {
      var u := Unread(cs, pos);
      var n := Min(wants[0], |u|);
      var s := AfterPull(cs, pos, wants[0]);
      PullConserves(cs, pos, wants[0]);
      PullAllReturnsStream(s.0, s.1, wants[1..]);
      var rest := PullAll(s.0, s.1, wants[1..]);
      assert PullAll(cs, pos, wants) == (u[..n] + rest.0, rest.1, rest.2);
      assert Sum(wants) == wants[0] + Sum(wants[1..]);
      ConcatPulls(u, n, wants[0], Sum(wants[1..]), rest.0, Unread(rest.1, rest.2));
    }
  }

  /** One pull of `n` bytes followed by pulls that conserve the rest conserves the whole. */
  lemma ConcatPulls(u: seq<byte>, n: nat, w: nat, more: nat, got: seq<byte>, left: seq<byte>)
    requires n == Min(w, |u|)
    requires got + left == u[n..] && |got| == Min(more, |u[n..]|)
    ensures u[..n] + got + left == u
    ensures |u[..n] + got| == Min(w + more, |u|)
  {
    assert u[..n] + got + left == u[..n] + (got + left);
  }

  /** Pulls whose requests add up to at least what was queued return every queued byte, in
      order, and leave nothing readable. */
  lemma PullAllDrains(cs: seq<Chunk>, pos: nat, wants: seq<nat>)
    requires CursorOk(cs, pos)
    requires Sum(wants) >= |Unread(cs, pos)|
    ensures var r := PullAll(cs, pos, wants);
            r.0 == Unread(cs, pos) && Unread(r.1, r.2) == []
  {
    PullAllReturnsStream(cs, pos, wants);
  }

  function Sum(ns: seq<nat>): nat
    decreases |ns|
  {
    if ns == [] then 0 else ns[0] + Sum(ns[1..])
  }

  // ---------------------------------------------------------------------------------
  // Header acquisition: the specifications of the read/recv header loops
  // ---------------------------------------------------------------------------------

  /** Chunks `tracker__read_headers` (tracker.h:140-149) appends and the unread file after
      it: records are read in order until one with raw type byte 6 (SEI) has been appended,
      or until `read_chunk` returns NULL. */
  function HeaderScan(s: seq<byte>): (r: (seq<Chunk>, seq<byte>))
    decreases |s|
  {
    var rr := ReadChunk(s);
    match rr.chunk
    case None => ([], rr.rest)
    case Some(c) =>
      if c.typeByte == 6 then ([c], rr.rest)
      else
        var tail := HeaderScan(rr.rest);
        ([c] + tail.0, tail.1)
  }

  /** One step of the scan: the record read first, and what the scan does with it. */
  lemma HeaderScanStep(s: seq<byte>)
    ensures var rr := ReadChunk(s);
            && (rr.chunk.None? ==> HeaderScan(s) == ([], rr.rest))
            && (rr.chunk.Some? ==> |rr.rest| < |s|)
            && (rr.chunk.Some? && rr.chunk.value.typeByte == 6 ==> HeaderScan(s) == ([rr.chunk.value], rr.rest))
            && (rr.chunk.Some? && rr.chunk.value.typeByte != 6 ==>
                  HeaderScan(s) == ([rr.chunk.value] + HeaderScan(rr.rest).0, HeaderScan(rr.rest).1))
  {
  }

  /** Where a header scan with results `scanned` and `left` stands once `appended` has been
      appended and `rest` is unread: when it is `over` nothing more is appended and `rest` is
      what the scan leaves, otherwise the rest comes from scanning `rest`. */
  ghost predicate HeaderScanAt(scanned: seq<Chunk>, left: seq<byte>, appended: seq<Chunk>,
                               rest: seq<byte>, over: bool)
  {
    if over then scanned == appended && left == rest
    else scanned == appended + HeaderScan(rest).0 && left == HeaderScan(rest).1
  }

  /** One read moves the header scan on: a failed read ends it, a chunk read is appended
      and ends the scan when it is SEI; a read that yields a chunk consumes bytes. */
  lemma HeaderScanAdvance(scanned: seq<Chunk>, left: seq<byte>, appended: seq<Chunk>, rest: seq<byte>)
    requires HeaderScanAt(scanned, left, appended, rest, false)
    ensures var rr := ReadChunk(rest);
            rr.chunk.None? ==> HeaderScanAt(scanned, left, appended, rr.rest, true)
    ensures var rr := ReadChunk(rest);
            rr.chunk.Some? ==>
              && |rr.rest| < |rest|
              && HeaderScanAt(scanned, left, appended + [rr.chunk.value], rr.rest, rr.chunk.value.typeByte == 6)
  {
    var rr := ReadChunk(rest);
    if rr.chunk.None? {
      assert HeaderScan(rest) == ([], rr.rest);
      assert appended + [] == appended;
    } else {
      var c := rr.chunk.value;
      if c.typeByte == 6 {
        assert HeaderScan(rest) == ([c], rr.rest);
      } else {
        var tail := HeaderScan(rr.rest);
        assert HeaderScan(rest) == ([c] + tail.0, tail.1);
        assert appended + ([c] + tail.0) == (appended + [c]) + tail.0;
      }
    }
  }

  /** The records of the given chunks, one after another. */
  function Records(cs: seq<Chunk>): seq<byte>
    requires forall i :: 0 <= i < |cs| ==> IsRecordChunk(cs[i])
    decreases |cs|
  {
    if cs == [] then [] else Encode(cs[0]) + Records(cs[1..])
  }

  /** `s` starts with the records of `cs`, in order; only the last of them may have type
      byte 6; and `out` is what is left once reading stopped: right after that SEI chunk,
      or after the next read, which returned NULL. */
  predicate ReadsInOrder(s: seq<byte>, cs: seq<Chunk>, out: seq<byte>) {
    && (forall i :: 0 <= i < |cs| ==> IsRecordChunk(cs[i]))
    && (forall i :: 0 <= i < |cs| - 1 ==> cs[i].typeByte != 6)
    && |Records(cs)| <= |s| && s[..|Records(cs)|] == Records(cs)
    && var after := s[|Records(cs)|..];
       if cs != [] && cs[|cs| - 1].typeByte == 6 then out == after
       else ReadChunk(after).chunk.None? && ReadChunk(after).rest == out
  }

  /** The header scan reads the file's records in order, and stops as `tracker__read_headers`
      does: after the first SEI chunk, or at the first read that returns NULL. */
  lemma {:induction false} HeaderScanReadsInOrder(s: seq<byte>)
    ensures ReadsInOrder(s, HeaderScan(s).0, HeaderScan(s).1)
    decreases |s|
  {
    var rr := ReadChunk(s);
    HeaderScanStep(s);
    ReadChunkDecodes(s);
    match rr.chunk
    case None =>
      assert s[|Records([])|..] == s;
    case Some(c) =>
      if c.typeByte == 6 {
        ReadsInOrderSei(s, c, rr.rest);
      } else {
        HeaderScanReadsInOrder(rr.rest);
        ReadsInOrderCons(s, c, rr.rest, HeaderScan(rr.rest).0, HeaderScan(rr.rest).1);
      }
  }

  lemma ReadsInOrderSei(s: seq<byte>, c: Chunk, rest: seq<byte>)
    requires IsRecordChunk(c) && c.typeByte == 6 && s == Encode(c) + rest
    ensures ReadsInOrder(s, [c], rest)
  {
    assert Records([c]) == Encode(c) + Records([]);
  }

  lemma ReadsInOrderCons(s: seq<byte>, c: Chunk, rest: seq<byte>, tail: seq<Chunk>, out: seq<byte>)
    requires IsRecordChunk(c) && c.typeByte != 6 && s == Encode(c) + rest
    requires ReadsInOrder(rest, tail, out)
    ensures ReadsInOrder(s, [c] + tail, out)
  {
    var cs := [c] + tail;
    var e, r := Encode(c), Records(tail);
    assert cs[1..] == tail;
    assert Records(cs) == e + r;
    assert s[..|e| + |r|] == e + rest[..|r|];
    assert s[|e| + |r|..] == rest[|r|..];
    forall i | 0 <= i < |cs|
      ensures IsRecordChunk(cs[i]) && (i < |cs| - 1 ==> cs[i].typeByte != 6)
    {
      if i > 0 {
        assert cs[i] == tail[i - 1];
      }
    }
    var after := s[|Records(cs)|..];
    assert after == rest[|r|..];
    if tail != [] {
      assert cs[|cs| - 1] == tail[|tail| - 1];
    } else {
      assert cs[|cs| - 1] == c;
    }
  }

  /** Messages the receive-header loops take off the transport: chunks of the messages up to
      where they stop, with the type-0 dummies left out. */
  function NonDummy(ms: seq<Received>): (cs: seq<Chunk>)
    ensures forall i :: 0 <= i < |cs| ==> HasTypeByte(cs[i]) && cs[i].typeByte != 0
    decreases |ms|
  {
    if ms == [] then []
    else
      var head: seq<Chunk> := match Receive(ms[0])
        case Some(c) => if c.typeByte != 0 then [c] else []
        case None => [];
      head + NonDummy(ms[1..])
  }

  /** Chunks `tracker__myzmq__recv_headers` and `tracker__mynano__recv_headers`
      (tracker.h:171-193) append, and how many receives they make: a NULL receive ends the
      loop, a chunk of raw type 0 is dropped, a chunk of raw type 6 is appended and ends it. */
  function RecvScan(src: seq<Received>): (r: (seq<Chunk>, nat))
    ensures r.1 <= |src|
    ensures src != [] ==> r.1 > 0
    decreases |src|
  {
    if src == [] then ([], 0)
    else match Receive(src[0])
      case None => ([], 1)
      case Some(c) =>
        if c.typeByte == 0 then
          var t := RecvScan(src[1..]);
          (t.0, t.1 + 1)
        else if c.typeByte == 6 then ([c], 1)
        else
          var t := RecvScan(src[1..]);
          ([c] + t.0, t.1 + 1)
  }

  /** One step of the receive scan. */
  lemma RecvScanStep(src: seq<Received>)
    requires src != []
    ensures var c := Receive(src[0]);
            && (c.None? ==> RecvScan(src) == ([], 1))
            && (c.Some? && c.value.typeByte == 0 ==> RecvScan(src) == (RecvScan(src[1..]).0, RecvScan(src[1..]).1 + 1))
            && (c.Some? && c.value.typeByte == 6 ==> RecvScan(src) == ([c.value], 1))
            && (c.Some? && c.value.typeByte != 0 && c.value.typeByte != 6 ==>
                  RecvScan(src) == ([c.value] + RecvScan(src[1..]).0, RecvScan(src[1..]).1 + 1))
  {
  }

  /** Where a receive scan with totals `scanned` and `count` stands once `appended` has
      been appended and `taken` receives made, `rem` being the ones still to come: when it
      is `over` nothing more is appended or taken, otherwise the rest comes from `rem`. */
  ghost predicate RecvScanAt(scanned: seq<Chunk>, count: nat, appended: seq<Chunk>, taken: nat,
                             rem: seq<Received>, over: bool)
  {
    if over then scanned == appended && count == taken
    else scanned == appended + RecvScan(rem).0 && count == taken + RecvScan(rem).1
  }

  /** One receive moves the scan on: a NULL receive ends it, a dummy chunk is taken and
      dropped, any other chunk is taken and appended, and ends the scan when it is SEI. */
  lemma RecvScanAdvance(scanned: seq<Chunk>, count: nat, appended: seq<Chunk>, taken: nat, rem: seq<Received>)
    requires rem != [] && RecvScanAt(scanned, count, appended, taken, rem, false)
    ensures var c := Receive(rem[0]);
            c.None? ==> RecvScanAt(scanned, count, appended, taken + 1, rem[1..], true)
    ensures var c := Receive(rem[0]);
            c.Some? && c.value.typeByte == 0 ==>
              RecvScanAt(scanned, count, appended, taken + 1, rem[1..], false)
    ensures var c := Receive(rem[0]);
            c.Some? && c.value.typeByte != 0 ==>
              RecvScanAt(scanned, count, appended + [c.value], taken + 1, rem[1..], c.value.typeByte == 6)
  {
    var c := Receive(rem[0]);
    if c.None? {
      assert RecvScan(rem) == ([], 1);
      assert appended + [] == appended;
    } else {
      var t := RecvScan(rem[1..]);
      if c.value.typeByte == 0 {
        assert RecvScan(rem) == (t.0, t.1 + 1);
      } else if c.value.typeByte == 6 {
        assert RecvScan(rem) == ([c.value], 1);
      } else {
        assert RecvScan(rem) == ([c.value] + t.0, t.1 + 1);
        assert appended + ([c.value] + t.0) == (appended + [c.value]) + t.0;
      }
    }
  }

  /** Dropping the first of the receives still to come moves the cut one place on. */
  lemma DropFirst(src: seq<Received>, taken: nat, rem: seq<Received>)
    requires taken < |src| && rem == src[taken..]
    ensures rem[1..] == src[taken + 1..]
  {
  }

  /** The receive-header loop appends exactly the non-dummy chunks of the messages it takes;
      every message before the last one taken was a chunk other than SEI, and it stopped
      early only at a NULL receive or at an appended SEI chunk. */
  lemma {:induction false} RecvScanFiltersDummies(src: seq<Received>)
    ensures var n := RecvScan(src).1;
            && RecvScan(src).0 == NonDummy(src[..n])
            && (forall i :: 0 <= i < n - 1 ==> Receive(src[i]).Some? && Receive(src[i]).value.typeByte != 6)
            && (n < |src| ==> Receive(src[n - 1]).None? || Receive(src[n - 1]).value.typeByte == 6)
    decreases |src|
  {
    if src != [] {
      var n := RecvScan(src).1;
      match Receive(src[0])
      case None =>
        assert src[..1] == [src[0]];
        assert NonDummy(src[..1]) == [] + NonDummy([]);
      case Some(c) =>
        if c.typeByte == 6 {
          assert src[..1] == [src[0]];
          assert NonDummy(src[..1]) == [c] + NonDummy([]);
        } else {
          RecvScanFiltersDummies(src[1..]);
          var m := RecvScan(src[1..]).1;
          assert n == m + 1;
          assert src[..n][1..] == src[1..][..m];
          assert src[..n][0] == src[0];
          forall i | 0 <= i < n - 1
            ensures Receive(src[i]).Some? && Receive(src[i]).value.typeByte != 6
          {
            if i > 0 { assert src[i] == src[1..][i - 1]; }
          }
          if n < |src| {
            assert src[n - 1] == src[1..][m - 1];
          }
        }
    }
  }

  /** The messages `send_chunks` puts on the transport: each chunk's full data, in order. */
  function Payloads(cs: seq<Chunk>): seq<seq<byte>>
    decreases |cs|
  {
    if cs == [] then [] else [cs[0].data] + Payloads(cs[1..])
  }

  /** Concatenating the messages sent gives every queued byte, including those a pull had
      already returned, and receiving each message again rebuilds its chunk. */
  lemma {:induction false} PayloadsCarryQueue(cs: seq<Chunk>)
    ensures |Payloads(cs)| == |cs|
    ensures forall i :: 0 <= i < |cs| ==> Payloads(cs)[i] == cs[i].data
    ensures forall i :: 0 <= i < |cs| && HasTypeByte(cs[i]) ==> Receive(Message(Payloads(cs)[i])) == Some(cs[i])
    decreases |cs|
  {
    if cs != [] {
      PayloadsCarryQueue(cs[1..]);
      forall i | 0 <= i < |cs| && HasTypeByte(cs[i])
        ensures Receive(Message(Payloads(cs)[i])) == Some(cs[i])
      {
        ReceiveSentChunk(cs[i]);
      }
    }
  }

  function ConcatAll(ms: seq<seq<byte>>): seq<byte>
    decreases |ms|
  {
    if ms == [] then [] else ms[0] + ConcatAll(ms[1..])
  }

  lemma {:induction false} PayloadsFlatten(cs: seq<Chunk>)
    ensures ConcatAll(Payloads(cs)) == Flatten(cs)
    decreases |cs|
  {
    if cs != [] {
      PayloadsFlatten(cs[1..]);
    }
  }

  // ---------------------------------------------------------------------------------
  // The tracker (chunk.h:3-6) and its operations
  // ---------------------------------------------------------------------------------

  class Tracker {
    /** The list from `curchunk` along `next`. */
    var chunks: seq<Chunk>
    /** Offset of the next unread byte in the head chunk. */
    var pos: nat

    predicate Valid()
      reads this
    {
      CursorOk(chunks, pos)
    }

    /** What a pull can still return. */
    function Readable(): seq<byte>
      reads this
      requires Valid()
    {
      Unread(chunks, pos)
    }

    /** `tracker__new` (tracker.h:296-301): no chunk, cursor 0. */
    constructor ()
      ensures Valid() && chunks == [] && pos == 0
    {
      chunks := [];
      pos := 0;
    }

    /** `tracker__add_chunk` (tracker.h:127-138): the chunk goes to the tail; on an empty
        tracker it becomes the head and the cursor is reset, otherwise the cursor stays. */
    method AddChunk(c: Chunk)
      requires Valid()
      modifies this
      ensures Valid()
      ensures chunks == old(chunks) + [c]
      ensures pos == if old(chunks) == [] then 0 else old(pos)
      ensures Readable() == old(Readable()) + c.data
    {
      UnreadAppend(chunks, pos, c);
      if chunks == [] {
        chunks := [c];
        pos := 0;
        return;
      }
      chunks := chunks + [c];
    }

    /** `tracker__read_headers` (tracker.h:140-149) over the unread bytes of the file;
        returns what is left unread. */
    method ReadHeaders(input: seq<byte>) returns (rest: seq<byte>)
      requires Valid()
      modifies this
      ensures Valid()
      ensures chunks == old(chunks) + HeaderScan(input).0
      ensures rest == HeaderScan(input).1
      ensures pos == old(pos)
      ensures Readable() == old(Readable()) + Flatten(HeaderScan(input).0)
    {
      ghost var cs0, pos0 := chunks, pos;
      ghost var scanned, left := HeaderScan(input).0, HeaderScan(input).1;
      ghost var appended: seq<Chunk> := [];
      rest := input;
      var done := false;
      assert [] + scanned == scanned;
      while !done
        invariant CursorOk(chunks, pos) && pos == pos0
        invariant chunks == cs0 + appended
        invariant HeaderScanAt(scanned, left, appended, rest, done)
        decreases |rest|
      {
        var r := ReadChunk(rest);
        HeaderScanAdvance(scanned, left, appended, rest);
        if r.chunk.None? {
          rest := r.rest;
          break;
        }
        var c := r.chunk.value;
        if c.typeByte == 6 {
          done := true;
        }
        assert cs0 + (appended + [c]) == (cs0 + appended) + [c];
        AddChunk(c);
        appended := appended + [c];
        rest := r.rest;
      }
      assert scanned == appended && left == rest;
      UnreadConcat(cs0, pos0, scanned);
    }

    /** `tracker__myzmq__recv_headers` and `tracker__mynano__recv_headers`
        (tracker.h:171-193), whose loops are the same, over the receives still to come;
        returns the ones not taken. */
    method RecvHeaders(src: seq<Received>) returns (remaining: seq<Received>)
      requires Valid()
      modifies this
      ensures Valid()
      ensures chunks == old(chunks) + RecvScan(src).0
      ensures remaining == src[RecvScan(src).1..]
      ensures pos == old(pos)
      ensures Readable() == old(Readable()) + Flatten(RecvScan(src).0)
    {
      ghost var cs0, pos0 := chunks, pos;
      ghost var scanned, count := RecvScan(src).0, RecvScan(src).1;
      ghost var appended: seq<Chunk> := [];
      ghost var taken := 0;
      remaining := src;
      var done := false;
      assert src[0..] == src;
      assert [] + scanned == scanned;
      while !done && remaining != []
        invariant CursorOk(chunks, pos) && pos == pos0
        invariant chunks == cs0 + appended
        invariant taken <= |src| && remaining == src[taken..]
        invariant RecvScanAt(scanned, count, appended, taken, remaining, done)
        decreases |remaining|
      {
        var c := Receive(remaining[0]);
        RecvScanAdvance(scanned, count, appended, taken, remaining);
        DropFirst(src, taken, remaining);
        remaining := remaining[1..];
        taken := taken + 1;
        if c.None? {
          break;
        }
        var ch := c.value;
        if ch.typeByte != 0 {
          done := ch.typeByte == 6;
          assert cs0 + (appended + [ch]) == (cs0 + appended) + [ch];
          AddChunk(ch);
          appended := appended + [ch];
        }
      }
      if !done && remaining == [] {
        assert RecvScan(remaining).0 == [] && RecvScan(remaining).1 == 0;
      }
      assert scanned == appended && count == taken;
      UnreadConcat(cs0, pos0, scanned);
    }

    /** `tracker__myzmq__send_chunks` and `tracker__mynano__send_chunks` (tracker.h:151-169):
        every queued chunk's full data goes out as one message, in queue order and whatever
        `pos` says; then the tracker is emptied and its cursor reset. Returns the messages. */
    method SendChunks() returns (sent: seq<seq<byte>>)
      requires Valid()
      modifies this
      ensures Valid()
      ensures sent == Payloads(old(chunks))
      ensures chunks == [] && pos == 0
    {
      sent := [];
      var i := 0;
      PayloadsCarryQueue(chunks);
      while i < |chunks|
        invariant 0 <= i <= |chunks|
        invariant sent == Payloads(chunks)[..i]
      {
        assert Payloads(chunks)[..i + 1] == Payloads(chunks)[..i] + [chunks[i].data];
        sent := sent + [chunks[i].data];
        i := i + 1;
      }
      assert Payloads(chunks)[..i] == Payloads(chunks);
      chunks := [];
      pos := 0;
    }

    /** `tracker__read_frame` (tracker.h:195-203): one record read and appended; reports
        whether there was one, and returns the unread file. */
    method ReadFrame(input: seq<byte>) returns (gotFrame: bool, rest: seq<byte>)
      requires Valid()
      modifies this
      ensures Valid()
      ensures gotFrame == ReadChunk(input).chunk.Some? && rest == ReadChunk(input).rest
      ensures chunks == old(chunks) + if gotFrame then [ReadChunk(input).chunk.value] else []
      ensures pos == old(pos)
      ensures Readable() == old(Readable()) + if gotFrame then ReadChunk(input).chunk.value.data else []
    {
      var r := ReadChunk(input);
      rest := r.rest;
      if r.chunk.Some? {
        AddChunk(r.chunk.value);
        return true, rest;
      }
      return false, rest;
    }

    /** `tracker__myzmq__recv_frame` and `tracker__mynano__recv_frame` (tracker.h:205-223):
        one receive, appended when it yields a chunk (a dummy of type 0 is appended too). */
    method RecvFrame(src: seq<Received>) returns (gotFrame: bool, remaining: seq<Received>)
      requires Valid()
      modifies this
      ensures Valid()
      ensures src == [] ==> !gotFrame && remaining == [] && chunks == old(chunks)
      ensures src != [] ==> gotFrame == Receive(src[0]).Some? && remaining == src[1..]
      ensures src != [] ==> chunks == old(chunks) + if gotFrame then [Receive(src[0]).value] else []
      ensures pos == old(pos)
      ensures Readable() == old(Readable()) + if gotFrame then Receive(src[0]).value.data else []
    {
      if src == [] {
        return false, [];
      }
      var c := Receive(src[0]);
      remaining := src[1..];
      if c.Some? {
        AddChunk(c.value);
        return true, remaining;
      }
      return false, remaining;
    }
  }
}
