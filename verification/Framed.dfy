/**
 Framed connections: a reader that assembles messages from chunks, a writer that
 survives partial writes, and both halves joined by a byte stream.

 The stream underneath is an environment: reads return any non-empty chunk, the end
 of the stream (no bytes) or an error; writes take any number of bytes or fail. Both
 are cancel-safe, so a call dropped while it waits has moved no byte.
 */
module Framed {
  import opened Prelude
  import opened Codec

  /** Mutable, growable byte container. */
  class Buffer {
    var data: Bytes

    constructor ()
      ensures data == []
    {
      data := [];
    }

    method ExtendFromSlice(bytes: Bytes)
      modifies this
      ensures data == old(data) + bytes
    {
      data := data + bytes;
    }

    /** Drops the first `cnt` bytes; dropping more than there are panics. */
    method Advance(cnt: nat)
      requires cnt <= |data|
      modifies this
      ensures old(data) == old(data)[..cnt] + data
    {
      data := data[cnt..];
    }
  }

  /** What a read returns; no bytes mean the end of the stream. */
  datatype ReadEvent = Read(bytes: Bytes) | ReadFailed

  /** The bytes of one read. */
  ghost function Chunk(event: ReadEvent): Bytes { if event.Read? then event.bytes else [] }

  /** The bytes a sequence of reads delivers. */
  ghost function DataOf(events: seq<ReadEvent>): Bytes {
    if events == [] then [] else DataOf(events[..|events| - 1]) + Chunk(events[|events| - 1])
  }

  lemma Regroup(a: Bytes, b: Bytes, c: Bytes)
    ensures (a + b) + c == a + (b + c)
  {
  }

  /** Of `events`, the first `used` have delivered `taken`, and `left` are to come. */
  ghost predicate Consumed(events: seq<ReadEvent>, used: nat, left: seq<ReadEvent>, taken: Bytes) {
    used <= |events| && left == events[used..] && taken == DataOf(events[..used])
  }

  lemma ConsumesOne(events: seq<ReadEvent>, used: nat, left: seq<ReadEvent>, taken: Bytes)
    requires Consumed(events, used, left, taken) && left != []
    ensures Consumed(events, used + 1, left[1..], taken + Chunk(left[0])) && events[used] == left[0]
  {
    assert events[..used + 1][..used] == events[..used];
  }

  datatype Received<+M> =
    | Msg(msg: M)
    | Closed        // end of stream on a frame boundary
    | Truncated     // end of stream inside a frame
    | ReadError
    | Rejected      // the codec rejects the buffered bytes
    | Cancelled     // dropped while waiting for a read

  // ---- where a reader is ----

  ghost function Flat(pieces: seq<Bytes>): Bytes {
    if pieces == [] then [] else Flat(pieces[..|pieces| - 1]) + pieces[|pieces| - 1]
  }

  /** `p` was taken off the front of some buffer as the bytes of `m`. */
  ghost predicate Piece<M>(c: Codec<M>, p: Bytes, m: M) {
    exists b: Bytes :: p <= b && c.decode(b) == Item(|p|, m)
  }

  /** No byte is lost: what was received is the pieces taken for the messages yielded,
      in order, and the buffer. */
  ghost predicate Took<M>(c: Codec<M>, received: Bytes, pieces: seq<Bytes>, yielded: seq<M>, buffer: Bytes) {
    && received == Flat(pieces) + buffer
    && |pieces| == |yielded|
    && forall i | 0 <= i < |pieces| :: Piece(c, pieces[i], yielded[i])
  }

  /** Having received `received` and yielded `yielded`, the buffer holds exactly what
      a one-shot parse of everything received would still have to parse. */
  ghost predicate Reads<M>(c: Codec<M>, received: Bytes, yielded: seq<M>, buffer: Bytes) {
    Parse(c, received) == After(yielded, Parse(c, buffer))
  }

  /** If what was received is a front of the frames of `msgs`, for which the codec keeps
      the contract, then a front of `msgs` has been yielded, and the buffer starts at the
      frame of the next one. */
  ghost predicate FollowsFor<M>(c: Codec<M>, received: Bytes, yielded: seq<M>, buffer: Bytes, msgs: seq<M>) {
    Contract(c, msgs) && received <= Frames(c, msgs) ==> yielded <= msgs && received == Frames(c, yielded) + buffer
  }

  ghost predicate Follows<M(!new)>(c: Codec<M>, received: Bytes, yielded: seq<M>, buffer: Bytes) {
    forall msgs: seq<M> :: FollowsFor(c, received, yielded, buffer, msgs)
  }

  /** The unread bytes behind `k` messages are the frames of the others. */
  lemma FramesAhead<M>(c: Codec<M>, msgs: seq<M>, k: nat, bytes: Bytes)
    requires k <= |msgs| && Frames(c, msgs[..k]) + bytes <= Frames(c, msgs)
    ensures bytes <= Frames(c, msgs[k..])
    ensures k < |msgs| ==> Frames(c, msgs[k..]) == Frame(c, msgs[k]) + Frames(c, msgs[k + 1..])
  {
    FramesConcat(c, msgs[..k], msgs[k..]);
    assert msgs == msgs[..k] + msgs[k..];
    var head := Frames(c, msgs[..k]);
    assert bytes == (head + bytes)[|head|..] && Frames(c, msgs[k..]) == Frames(c, msgs)[|head|..];
    if k < |msgs| {
      assert msgs[k..][1..] == msgs[k + 1..];
    }
  }

  /** What a reader at the frame of message `k` finds: nothing yet while that frame is
      incomplete, else that message, whole. */
  lemma NextItem<M>(c: Codec<M>, msgs: seq<M>, k: nat, buffer: Bytes)
    requires Contract(c, msgs) && k <= |msgs| && Frames(c, msgs[..k]) + buffer <= Frames(c, msgs)
    ensures k == |msgs| ==> buffer == []
    ensures if k == |msgs| || |buffer| < |Frame(c, msgs[k])| then c.decode(buffer) == NeedMore
            else c.decode(buffer) == Item(|Frame(c, msgs[k])|, msgs[k]) && Frame(c, msgs[k]) <= buffer
  {
    FramesAhead(c, msgs, k, buffer);
    if k < |msgs| {
      var frame := Frame(c, msgs[k]);
      assert Exact(c, msgs[k]);
      if |buffer| < |frame| {
        assert buffer == frame[..|buffer|];
        assert Waits(c, msgs[k], |buffer|);
      } else {
        assert buffer == frame + buffer[|frame|..];
        assert Decodes(c, msgs[k], buffer[|frame|..]);
      }
    } else {
      assert msgs[k..] == [];
    }
  }

  lemma FollowsStart<M(!new)>(c: Codec<M>)
    ensures Follows(c, [], [], [])
  {
    forall msgs: seq<M> ensures FollowsFor(c, [], [], [], msgs) {
      assert Frames(c, msgs[..0]) == [];
    }
  }

  lemma FollowsMore<M(!new)>(c: Codec<M>, received: Bytes, yielded: seq<M>, buffer: Bytes, chunk: Bytes)
    requires Follows(c, received, yielded, buffer)
    ensures Follows(c, received + chunk, yielded, buffer + chunk)
  {
    forall msgs: seq<M> ensures FollowsFor(c, received + chunk, yielded, buffer + chunk, msgs) {
      assert FollowsFor(c, received, yielded, buffer, msgs);
      if received + chunk <= Frames(c, msgs) {
        assert received == (received + chunk)[..|received|] == Frames(c, msgs)[..|received|];
        Regroup(Frames(c, yielded), buffer, chunk);
      }
    }
  }

  lemma FollowsItem<M(!new)>(c: Codec<M>, received: Bytes, yielded: seq<M>, buffer: Bytes)
    requires Follows(c, received, yielded, buffer) && c.decode(buffer).Item? && c.decode(buffer).consumed <= |buffer|
    ensures Follows(c, received, yielded + [c.decode(buffer).msg], buffer[c.decode(buffer).consumed..])
  {
    var n, m := c.decode(buffer).consumed, c.decode(buffer).msg;
    forall msgs: seq<M> ensures FollowsFor(c, received, yielded + [m], buffer[n..], msgs) {
      assert FollowsFor(c, received, yielded, buffer, msgs);
      if Contract(c, msgs) && received <= Frames(c, msgs) {
        OneFurther(c, yielded, buffer, msgs);
      }
    }
  }

  lemma FramesSnoc<M>(c: Codec<M>, msgs: seq<M>, m: M)
    ensures Frames(c, msgs + [m]) == Frames(c, msgs) + Frame(c, m)
  {
    FramesConcat(c, msgs, [m]);
    assert Frames(c, [m]) == Frame(c, m) + Frames(c, []);
  }

  lemma SplitOff(a: Bytes, b: Bytes, c: Bytes)
    requires b <= c
    ensures a + c == (a + b) + c[|b|..]
  {
    assert c == b + c[|b|..];
  }

  lemma OneFurther<M>(c: Codec<M>, yielded: seq<M>, buffer: Bytes, msgs: seq<M>)
    requires Contract(c, msgs) && yielded <= msgs && Frames(c, yielded) + buffer <= Frames(c, msgs) && c.decode(buffer).Item?
    ensures var n, m := c.decode(buffer).consumed, c.decode(buffer).msg;
            && n <= |buffer| && yielded + [m] <= msgs
            && Frames(c, yielded) + buffer == Frames(c, yielded + [m]) + buffer[n..]
  {
    var k := |yielded|;
    assert yielded == msgs[..k];
    NextItem(c, msgs, k, buffer);
    assert c.decode(buffer) == Item(|Frame(c, msgs[k])|, msgs[k]);
    assert yielded + [msgs[k]] == msgs[..k + 1];
    FramesSnoc(c, yielded, msgs[k]);
    SplitOff(Frames(c, yielded), Frame(c, msgs[k]), buffer);
  }

  lemma FramesNonEmpty<M>(c: Codec<M>, msgs: seq<M>)
    requires Contract(c, msgs) && msgs != []
    ensures Frames(c, msgs) != []
  {
    assert Exact(c, msgs[0]);
  }

  /** Non-empty frames: a proper front of the messages is a proper front of the bytes. */
  lemma AllBytesAllMessages<M>(c: Codec<M>, yielded: seq<M>, msgs: seq<M>)
    requires Contract(c, msgs) && yielded <= msgs && |Frames(c, yielded)| == |Frames(c, msgs)|
    ensures yielded == msgs
  {
    var k := |yielded|;
    assert msgs == yielded + msgs[k..];
    FramesConcat(c, yielded, msgs[k..]);
    if k < |msgs| {
      FramesNonEmpty(c, msgs[k..]);
    }
  }

  /** `bytes` ends where the frame of one of `msgs` does, or at the start. */
  ghost predicate AtBoundary<M>(c: Codec<M>, bytes: Bytes, msgs: seq<M>) {
    exists k :: 0 <= k <= |msgs| && bytes == Frames(c, msgs[..k])
  }

  lemma FramesLength<M>(c: Codec<M>, msgs: seq<M>, j: nat, k: nat)
    requires j <= k <= |msgs|
    ensures |Frames(c, msgs[..k])| == |Frames(c, msgs[..j])| + |Frames(c, msgs[j..k])|
  {
    FramesConcat(c, msgs[..j], msgs[j..k]);
    assert msgs[..j] + msgs[j..k] == msgs[..k];
  }

  lemma FirstFrame<M>(c: Codec<M>, msgs: seq<M>)
    requires msgs != []
    ensures |Frames(c, msgs)| >= |Frame(c, msgs[0])|
  {
  }

  /** A boundary less than one frame past the end of message `k` is at that end. */
  lemma NoBoundaryInside<M>(c: Codec<M>, msgs: seq<M>, j: nat, k: nat, past: nat)
    requires j <= |msgs| && k <= |msgs| && |Frames(c, msgs[..j])| == |Frames(c, msgs[..k])| + past
    requires k == |msgs| || past < |Frame(c, msgs[k])|
    ensures past == 0
  {
    if j <= k {
      FramesLength(c, msgs, j, k);
    } else {
      FirstFrame(c, msgs[k..j]);
      FramesLength(c, msgs, k, j);
    }
  }

  /** A reader that waits holds nothing exactly at a frame boundary. */
  lemma Boundary<M>(c: Codec<M>, received: Bytes, yielded: seq<M>, buffer: Bytes, msgs: seq<M>)
    requires Contract(c, msgs) && received <= Frames(c, msgs) && yielded <= msgs && received == Frames(c, yielded) + buffer
    requires c.decode(buffer).NeedMore?
    ensures buffer == [] <==> AtBoundary(c, received, msgs)
  {
    var k := |yielded|;
    assert yielded == msgs[..k];
    NextItem(c, msgs, k, buffer);
    if buffer == [] {
      assert received == Frames(c, msgs[..k]);
    } else if AtBoundary(c, received, msgs) {
      var j :| 0 <= j <= |msgs| && received == Frames(c, msgs[..j]);
      NoBoundaryInside(c, msgs, j, k, |buffer|);
    }
  }

  /** What it means for a reader to have followed `msgs`: a front of them yielded, no
      bytes rejected, and a waiting reader empty exactly at a frame boundary. */
  ghost predicate OnTrack<M>(c: Codec<M>, received: Bytes, yielded: seq<M>, buffer: Bytes, msgs: seq<M>) {
    && yielded <= msgs
    && received == Frames(c, yielded) + buffer
    && !c.decode(buffer).Bad?
    && (c.decode(buffer).NeedMore? ==> (buffer == [] <==> AtBoundary(c, received, msgs)))
    && (c.decode(buffer).NeedMore? && received == Frames(c, msgs) ==> yielded == msgs && buffer == [])
  }

  lemma FollowingIsOnTrack<M(!new)>(c: Codec<M>, received: Bytes, yielded: seq<M>, buffer: Bytes, msgs: seq<M>)
    requires Follows(c, received, yielded, buffer) && Contract(c, msgs) && received <= Frames(c, msgs)
    ensures OnTrack(c, received, yielded, buffer, msgs)
  {
    assert FollowsFor(c, received, yielded, buffer, msgs);
    var k := |yielded|;
    assert yielded == msgs[..k];
    NextItem(c, msgs, k, buffer);
    if c.decode(buffer).NeedMore? {
      Boundary(c, received, yielded, buffer, msgs);
      if received == Frames(c, msgs) {
        assert msgs[..|msgs|] == msgs;
        AllBytesAllMessages(c, yielded, msgs);
      }
    }
  }

  /** The same from the one-shot parse: a reader that is where a parse of everything
      received would be, over any front of the frames, is on track when it waits. */
  lemma ParsedIsOnTrack<M>(c: Codec<M>, received: Bytes, yielded: seq<M>, buffer: Bytes, msgs: seq<M>)
    requires Reads(c, received, yielded, buffer) && Contract(c, msgs) && received <= Frames(c, msgs)
    ensures yielded <= msgs && !c.decode(buffer).Bad?
    ensures c.decode(buffer).NeedMore? ==>
              received == Frames(c, yielded) + buffer && (buffer == [] <==> AtBoundary(c, received, msgs))
  {
    PrefixParse(c, msgs, received);
    assert yielded <= yielded + Parse(c, buffer).msgs <= msgs;
    if c.decode(buffer).NeedMore? {
      assert yielded + [] == yielded;
      Boundary(c, received, yielded, buffer, msgs);
    }
  }

  lemma ReadsMore<M>(c: Codec<M>, received: Bytes, yielded: seq<M>, buffer: Bytes, chunk: Bytes)
    requires Stable(c) && Reads(c, received, yielded, buffer) && c.decode(buffer).NeedMore?
    ensures Reads(c, received + chunk, yielded, buffer + chunk)
  {
    ParseResumes(c, received, chunk);
  }

  lemma ReadsItem<M>(c: Codec<M>, received: Bytes, yielded: seq<M>, buffer: Bytes)
    requires Stable(c) && Reads(c, received, yielded, buffer) && c.decode(buffer).Item?
    ensures var n := c.decode(buffer).consumed;
            0 < n <= |buffer| && Reads(c, received, yielded + [c.decode(buffer).msg], buffer[n..])
  {
    assert Steady(c, buffer, []);
    var n, m := c.decode(buffer).consumed, c.decode(buffer).msg;
    AfterAfter(yielded, [m], Parse(c, buffer[n..]));
  }

  lemma TookItem<M>(c: Codec<M>, received: Bytes, pieces: seq<Bytes>, yielded: seq<M>, buffer: Bytes)
    requires Took(c, received, pieces, yielded, buffer) && c.decode(buffer).Item? && c.decode(buffer).consumed <= |buffer|
    ensures var n, m := c.decode(buffer).consumed, c.decode(buffer).msg;
            Took(c, received, pieces + [buffer[..n]], yielded + [m], buffer[n..])
  {
    var n, m := c.decode(buffer).consumed, c.decode(buffer).msg;
    var pieces' := pieces + [buffer[..n]];
    assert pieces'[..|pieces|] == pieces;
    assert buffer == buffer[..n] + buffer[n..];
    Regroup(Flat(pieces), buffer[..n], buffer[n..]);
    assert Piece(c, buffer[..n], m);
  }

  /** Where a reader is, as far as the codec's laws let one say: always the bytes; for
      messages that keep the contract, the messages; for a stable codec, the parse. */
  ghost predicate Reader<M(!new)>(c: Codec<M>, received: Bytes, pieces: seq<Bytes>, yielded: seq<M>, buffer: Bytes) {
    && Took(c, received, pieces, yielded, buffer)
    && Follows(c, received, yielded, buffer)
    && (Stable(c) ==> Reads(c, received, yielded, buffer))
  }

  lemma ReaderStart<M(!new)>(c: Codec<M>)
    ensures Reader(c, [], [], [], [])
  {
    FollowsStart(c);
  }

  lemma ReaderMore<M(!new)>(c: Codec<M>, received: Bytes, pieces: seq<Bytes>, yielded: seq<M>, buffer: Bytes, chunk: Bytes)
    requires Reader(c, received, pieces, yielded, buffer) && c.decode(buffer).NeedMore?
    ensures Reader(c, received + chunk, pieces, yielded, buffer + chunk)
  {
    Regroup(Flat(pieces), buffer, chunk);
    FollowsMore(c, received, yielded, buffer, chunk);
    if Stable(c) {
      ReadsMore(c, received, yielded, buffer, chunk);
    }
  }

  lemma ReaderItem<M(!new)>(c: Codec<M>, received: Bytes, pieces: seq<Bytes>, yielded: seq<M>, buffer: Bytes)
    requires Reader(c, received, pieces, yielded, buffer) && c.decode(buffer).Item? && c.decode(buffer).consumed <= |buffer|
    ensures var n, m := c.decode(buffer).consumed, c.decode(buffer).msg;
            Reader(c, received, pieces + [buffer[..n]], yielded + [m], buffer[n..])
  {
    TookItem(c, received, pieces, yielded, buffer);
    FollowsItem(c, received, yielded, buffer);
    if Stable(c) {
      ReadsItem(c, received, yielded, buffer);
    }
  }

  /** What a receive that ends with `r` leaves of the bytes `full` it had: all of them, or
      all behind the message it returns. */
  ghost predicate Leaves<M>(c: Codec<M>, full: Bytes, r: Received<M>, buffer: Bytes) {
    if r.Msg? then exists n: nat :: n <= |full| && c.decode(full) == Item(n, r.msg) && buffer == full[n..]
    else
      && buffer == full && c.decode(full) == (if r.Rejected? then Bad else NeedMore)
      && (r.Closed? ==> buffer == []) && (r.Truncated? ==> buffer != [])
  }

  /** What the outcome of a receive means when the stream carries frames of `msgs`:
      nothing is rejected, and a closed stream is clean exactly at a frame boundary. */
  ghost predicate Tells<M>(c: Codec<M>, received: Bytes, r: Received<M>, msgs: seq<M>) {
    Contract(c, msgs) && received <= Frames(c, msgs) ==>
      && !r.Rejected?
      && (r.Closed? ==> AtBoundary(c, received, msgs))
      && (r.Truncated? ==> !AtBoundary(c, received, msgs))
  }

  ghost predicate TellsAll<M(!new)>(c: Codec<M>, received: Bytes, r: Received<M>) {
    forall msgs: seq<M> :: Tells(c, received, r, msgs)
  }

  lemma OutcomeTells<M(!new)>(c: Codec<M>, received: Bytes, yielded: seq<M>, full: Bytes, buffer: Bytes, r: Received<M>)
    requires Follows(c, received, yielded, buffer) && Leaves(c, full, r, buffer)
    ensures TellsAll(c, received, r)
  {
    forall msgs: seq<M> ensures Tells(c, received, r, msgs) {
      if !r.Msg? && Contract(c, msgs) && received <= Frames(c, msgs) {
        FollowingIsOnTrack(c, received, yielded, buffer, msgs);
      }
    }
  }

  /** Read half. `incoming` is what the stream's reads are going to return. */
  class FramedReader<M(!new)> {
    const codec: Codec<M>
    const buffer: Buffer
    var incoming: seq<ReadEvent>
    ghost var received: Bytes
    ghost var pieces: seq<Bytes>
    ghost var yielded: seq<M>

    ghost predicate Valid()
      reads this, buffer
    {
      Fits(codec) && Reader(codec, received, pieces, yielded, buffer.data)
    }

    constructor (codec: Codec<M>, incoming: seq<ReadEvent>)
      requires Fits(codec)
      ensures Valid() && fresh(buffer) && this.codec == codec && this.incoming == incoming
      ensures received == [] && yielded == [] && buffer.data == []
    {
      this.codec := codec;
      this.incoming := incoming;
      buffer := new Buffer();
      received, pieces, yielded := [], [], [];
      ReaderStart(codec);
    }

    /** Decodes the front of the buffer and drops the item found there, if any. */
    method TryItem() returns (d: Decoded<M>)
      requires Valid()
      modifies this`yielded, this`pieces, buffer
      ensures Valid() && d == codec.decode(old(buffer.data))
      ensures if d.Item? then
                d.consumed <= |old(buffer.data)| && buffer.data == old(buffer.data)[d.consumed..]
                && yielded == old(yielded) + [d.msg]
              else
                buffer.data == old(buffer.data) && yielded == old(yielded)
    {
      d := codec.decode(buffer.data);
      if d.Item? {
        assert FitsAt(codec, buffer.data);
        ReaderItem(codec, received, pieces, yielded, buffer.data);
        pieces, yielded := pieces + [buffer.data[..d.consumed]], yielded + [d.msg];
        buffer.Advance(d.consumed);
      }
    }

    /** Appends a chunk to the buffer. */
    method Absorb(chunk: Bytes)
      requires Valid() && codec.decode(buffer.data).NeedMore?
      modifies this`received, buffer
      ensures Valid() && buffer.data == old(buffer.data) + chunk && received == old(received) + chunk
    {
      ReaderMore(codec, received, pieces, yielded, buffer.data, chunk);
      buffer.ExtendFromSlice(chunk);
      received := received + chunk;
    }

    /** What one read leads to: an outcome, or the need for another read. */
    method Pull(event: ReadEvent) returns (r: Option<Received<M>>)
      requires Valid() && codec.decode(buffer.data).NeedMore?
      modifies this`received, this`yielded, this`pieces, buffer
      ensures Valid() && received == old(received) + Chunk(event)
      ensures yielded == old(yielded) + (if r.Some? && r.value.Msg? then [r.value.msg] else [])
      ensures var full := old(buffer.data) + Chunk(event);
              if r.Some? then Leaves(codec, full, r.value, buffer.data)
              else buffer.data == full && codec.decode(full).NeedMore?
      ensures r.Some? ==> (r.value.ReadError? <==> event.ReadFailed?) && !r.value.Cancelled?
      ensures r.Some? ==> (r.value.Closed? || r.value.Truncated? <==> event == Read([]))
      ensures r.None? ==> event.Read? && event.bytes != []
    {
      assert received + [] == received && buffer.data + [] == buffer.data;
      if event.ReadFailed? {
        return Some(ReadError);
      }
      if event.bytes == [] {
        return Some(if buffer.data == [] then Closed else Truncated);
      }
      Absorb(event.bytes);
      var d := TryItem();
      return if d.Item? then Some(Msg(d.msg)) else if d.Bad? then Some(Rejected) else None;
    }

    /** Receives one complete message, reading as often as it takes: `used` reads
        that deliver the bytes `taken`. Every outcome but a message leaves all bytes
        received since the last message in the buffer, so a later call loses nothing. */
    method RecvMsg() returns (r: Received<M>, ghost used: nat, ghost taken: Bytes)
      requires Valid()
      modifies this, buffer
      ensures Valid()
      ensures used <= |old(incoming)| && incoming == old(incoming)[used..] && taken == DataOf(old(incoming)[..used])
      ensures received == old(received) + taken
      ensures yielded == old(yielded) + (if r.Msg? then [r.msg] else [])
      ensures Leaves(codec, old(buffer.data) + taken, r, buffer.data)
      ensures r.Closed? || r.Truncated? ==> used > 0 && old(incoming)[used - 1] == Read([])
      ensures r.ReadError? ==> used > 0 && old(incoming)[used - 1] == ReadFailed
      ensures r.Cancelled? ==> incoming == []
      ensures TellsAll(codec, received, r)
    {
      used, taken := 0, [];
      assert buffer.data + taken == buffer.data;
      var d := TryItem();
      r := if d.Item? then Msg(d.msg) else if d.Bad? then Rejected else Cancelled;
      if d.NeedMore? {
        r, used, taken := ReadLoop();
      }
      OutcomeTells(codec, received, yielded, old(buffer.data) + taken, buffer.data, r);
    }

    /** The loop of `recv_msg`. */
    method ReadLoop() returns (r: Received<M>, ghost used: nat, ghost taken: Bytes)
      requires Valid() && codec.decode(buffer.data).NeedMore?
      modifies this, buffer
      ensures Valid()
      ensures used <= |old(incoming)| && incoming == old(incoming)[used..] && taken == DataOf(old(incoming)[..used])
      ensures received == old(received) + taken
      ensures yielded == old(yielded) + (if r.Msg? then [r.msg] else [])
      ensures Leaves(codec, old(buffer.data) + taken, r, buffer.data)
      ensures r.Closed? || r.Truncated? ==> used > 0 && old(incoming)[used - 1] == Read([])
      ensures r.ReadError? ==> used > 0 && old(incoming)[used - 1] == ReadFailed
      ensures r.Cancelled? ==> incoming == []
    {
      used, taken := 0, [];
      while incoming != []
        invariant Valid() && codec.decode(buffer.data).NeedMore? && yielded == old(yielded)
        invariant Consumed(old(incoming), used, incoming, taken)
        invariant received == old(received) + taken && buffer.data == old(buffer.data) + taken
        decreases |incoming|
      {
        var event := incoming[0];
        ConsumesOne(old(incoming), used, incoming, taken);
        Regroup(old(received), taken, Chunk(event));
        Regroup(old(buffer.data), taken, Chunk(event));
        incoming, used, taken := incoming[1..], used + 1, taken + Chunk(event);
        var out := Pull(event);
        if out.Some? {
          return out.value, used, taken;
        }
      }
      return Cancelled, used, taken;
    }
  }

  /** What a write or the final flush returns. */
  datatype WriteEvent = Takes(n: nat) | WriteFailed

  datatype Sent =
    | Flushed
    | Refused         // the codec cannot encode the message
    | WriteZero
    | WriteError
    | Interrupted     // dropped while waiting for a write or the flush

  lemma AcceptedBytes<M>(c: Codec<M>, written: Bytes, buffer: Bytes, accepted: seq<M>, m: M)
    requires written + buffer == Frames(c, accepted)
    ensures written + (buffer + Frame(c, m)) == Frames(c, accepted + [m])
  {
    FramesSnoc(c, accepted, m);
    Regroup(written, buffer, Frame(c, m));
  }

  lemma WrittenBytes(written: Bytes, buffer: Bytes, n: nat)
    requires n <= |buffer|
    ensures (written + buffer[..n]) + buffer[n..] == written + buffer
  {
    assert buffer == buffer[..n] + buffer[n..];
    Regroup(written, buffer[..n], buffer[n..]);
  }

  function Accepts(e: WriteEvent, len: nat): (n: nat)
    ensures n <= len
  {
    if e.WriteFailed? then 0 else if e.n <= len then e.n else len
  }

  /** How many of `len` bytes the first `used` answers of the stream take. */
  ghost function Moved(answers: seq<WriteEvent>, used: nat, len: nat): (n: nat)
    requires used <= |answers|
    ensures n <= len
  {
    if used == 0 then 0
    else
      var before := Moved(answers, used - 1, len);
      before + Accepts(answers[used - 1], len - before)
  }

  /** The bytes `full` went out in order as far as the stream took them, and the rest is
      in the buffer. */
  ghost predicate Wrote(answers: seq<WriteEvent>, used: nat, full: Bytes, before: Bytes, written: Bytes, buffer: Bytes) {
    && used <= |answers|
    && var n := Moved(answers, used, |full|);
    && written == before + full[..n] && buffer == full[n..]
  }

  /** What ended a send: the stream, when it took nothing, failed, or had no answer yet. */
  ghost predicate Told(r: Sent, answers: seq<WriteEvent>, used: nat, buffer: Bytes) {
    && used <= |answers|
    && match r
       case Flushed => buffer == [] && used > 0 && answers[used - 1].Takes?
       case Refused => used == 0
       case WriteZero => buffer != [] && used > 0 && answers[used - 1] == Takes(0)
       case WriteError => used > 0 && answers[used - 1].WriteFailed?
       case Interrupted => used == |answers|
  }

  lemma WroteNothing(answers: seq<WriteEvent>, full: Bytes, before: Bytes)
    ensures Wrote(answers, 0, full, before, before, full)
  {
    assert before + full[..0] == before;
  }

  lemma WroteMore(answers: seq<WriteEvent>, used: nat, full: Bytes, before: Bytes, written: Bytes, buffer: Bytes)
    requires Wrote(answers, used, full, before, written, buffer) && used < |answers|
    ensures var n := Accepts(answers[used], |buffer|);
            Wrote(answers, used + 1, full, before, written + buffer[..n], buffer[n..])
    ensures buffer == [] ==> Wrote(answers, used + 1, full, before, written, buffer)
  {
    var k, n := Moved(answers, used, |full|), Accepts(answers[used], |buffer|);
    assert full[..k + n] == full[..k] + full[k..][..n] && full[k..][n..] == full[k + n..];
    Regroup(before, full[..k], full[k..][..n]);
    assert written + buffer[..0] == written && buffer[0..] == buffer;
  }

  lemma FlushWritesNothing(answers: seq<WriteEvent>, used: nat, full: Bytes, before: Bytes, written: Bytes)
    requires Wrote(answers, used, full, before, written, []) && used < |answers|
    ensures Wrote(answers, used + 1, full, before, written, [])
  {
    WroteMore(answers, used, full, before, written, []);
  }

  lemma AllWritten(written: Bytes, frames: Bytes)
    requires written + [] == frames
    ensures written == frames
  {
  }

  /** Write half. `outgoing` is what the stream's writes are going to return. */
  class FramedWriter<M> {
    const codec: Codec<M>
    const buffer: Buffer
    var outgoing: seq<WriteEvent>
    ghost var written: Bytes
    ghost var accepted: seq<M>

    ghost predicate Valid()
      reads this, buffer
    {
      written + buffer.data == Frames(codec, accepted)
    }

    constructor (codec: Codec<M>, outgoing: seq<WriteEvent>)
      ensures Valid() && fresh(buffer) && this.codec == codec && this.outgoing == outgoing
      ensures written == [] && accepted == [] && buffer.data == []
    {
      this.codec := codec;
      this.outgoing := outgoing;
      buffer := new Buffer();
      written, accepted := [], [];
      new;
      assert Frames(codec, accepted) == [];
    }

    /** Encodes into the buffer and writes until it is empty, in `used` writes and
        flushes. A message is accepted whole or not at all: whatever a failed or dropped
        call leaves in the buffer goes out before the next message. */
    method SendMsg(m: M) returns (r: Sent, ghost used: nat)
      requires Valid()
      modifies this, buffer
      ensures Valid()
      ensures r.Refused? <==> codec.encode(m).None?
      ensures r.Refused? ==> used == 0 && buffer.data == old(buffer.data) && written == old(written)
      ensures accepted == old(accepted) + (if r.Refused? then [] else [m])
      ensures used <= |old(outgoing)| && outgoing == old(outgoing)[used..]
      ensures !r.Refused? ==> Wrote(old(outgoing), used, old(buffer.data) + Frame(codec, m), old(written), written, buffer.data)
      ensures Told(r, old(outgoing), used, buffer.data)
      ensures r.Flushed? ==> buffer.data == [] && written == Frames(codec, accepted)
    {
      var frame := codec.encode(m);
      if frame.None? {
        return Refused, 0;
      }
      AcceptedBytes(codec, written, buffer.data, accepted, m);
      buffer.ExtendFromSlice(frame.value);
      accepted := accepted + [m];
      r, used := Flush();
    }

    /** The write loop and the final flush. */
    method Flush() returns (r: Sent, ghost used: nat)
      requires Valid()
      modifies this`outgoing, this`written, buffer
      ensures Valid() && !r.Refused?
      ensures used <= |old(outgoing)| && outgoing == old(outgoing)[used..]
      ensures Wrote(old(outgoing), used, old(buffer.data), old(written), written, buffer.data)
      ensures Told(r, old(outgoing), used, buffer.data)
      ensures r.Flushed? ==> buffer.data == [] && written == Frames(codec, accepted)
    {
      var failure;
      failure, used := WriteAll();
      if failure.Some? {
        return failure.value, used;
      }
      AllWritten(written, Frames(codec, accepted));
      if outgoing == [] {
        return Interrupted, used;
      }
      FlushWritesNothing(old(outgoing), used, old(buffer.data), old(written), written);
      var flush := outgoing[0];
      outgoing, used := outgoing[1..], used + 1;
      return if flush.WriteFailed? then WriteError else Flushed, used;
    }

    method WriteAll() returns (failure: Option<Sent>, ghost used: nat)
      requires Valid()
      modifies this`outgoing, this`written, buffer
      ensures Valid()
      ensures used <= |old(outgoing)| && outgoing == old(outgoing)[used..]
      ensures Wrote(old(outgoing), used, old(buffer.data), old(written), written, buffer.data)
      ensures failure.None? ==> buffer.data == []
      ensures failure.Some? ==> !failure.value.Flushed? && !failure.value.Refused?
      ensures failure.Some? ==> Told(failure.value, old(outgoing), used, buffer.data)
    {
      used := 0;
      WroteNothing(outgoing, buffer.data, written);
      while buffer.data != []
        invariant Valid() && used <= |old(outgoing)| && outgoing == old(outgoing)[used..]
        invariant Wrote(old(outgoing), used, old(buffer.data), old(written), written, buffer.data)
        decreases |outgoing|
      {
        if outgoing == [] {
          return Some(Interrupted), used;
        }
        WroteMore(old(outgoing), used, old(buffer.data), old(written), written, buffer.data);
        failure := WriteOnce();
        used := used + 1;
        if failure.Some? {
          return failure, used;
        }
      }
      return None, used;
    }

    /** One write: the stream takes a front of the buffer, or ends the call. */
    method WriteOnce() returns (failure: Option<Sent>)
      requires Valid() && outgoing != [] && buffer.data != []
      modifies this`outgoing, this`written, buffer
      ensures Valid() && outgoing == old(outgoing)[1..]
      ensures var n := Accepts(old(outgoing)[0], |old(buffer.data)|);
              && written == old(written) + old(buffer.data)[..n] && buffer.data == old(buffer.data)[n..]
              && failure == if old(outgoing)[0].WriteFailed? then Some(WriteError) else if n == 0 then Some(WriteZero) else None
    {
      var event := outgoing[0];
      outgoing := outgoing[1..];
      assert written + buffer.data[..0] == written && buffer.data[0..] == buffer.data;
      if event.WriteFailed? {
        return Some(WriteError);
      }
      var n := Accepts(event, |buffer.data|);
      if n == 0 {
        return Some(WriteZero);
      }
      WrittenBytes(written, buffer.data, n);
      written := written + buffer.data[..n];
      buffer.Advance(n);
      return None;
    }
  }

  /** A writer and a reader of one codec, the reader having received no more than a
      front of what was written: the reader is on track for the messages the writer
      accepted, whatever reads, writes, failures and cancellations led there. */
  lemma ReaderFollowsWriter<M(!new)>(w: FramedWriter<M>, r: FramedReader<M>)
    requires w.Valid() && r.Valid() && w.codec == r.codec && r.received <= w.written
    requires Contract(w.codec, w.accepted)
    ensures OnTrack(w.codec, r.received, r.yielded, r.buffer.data, w.accepted)
  {
    assert w.written <= w.written + w.buffer.data;
    FollowingIsOnTrack(w.codec, r.received, r.yielded, r.buffer.data, w.accepted);
  }

  // ---- both halves at once ----

  /** A writer and a reader on the two ends of a byte stream. */
  datatype Pipe<M> = Pipe(
    accepted: seq<M>,     // messages `send_msg` has encoded
    outbox: Bytes,        // writer buffer
    wire: Bytes,          // written, not yet read
    received: Bytes,      // everything read so far
    inbox: Bytes,         // reader buffer
    yielded: seq<M>)      // messages `recv_msg` has returned

  ghost function NewPipe<M>(): Pipe<M> { Pipe([], [], [], [], [], []) }

  datatype PipeEvent<M> =
    | Accept(m: M)        // a send starts, possibly behind what an earlier one left
    | Write(n: nat)       // a (partial) write of n bytes
    | Deliver(n: nat)     // a read of n bytes, when the reader needs more
    | Yield               // a message is taken off the reader buffer

  ghost predicate PipeNext<M>(c: Codec<M>, s: Pipe<M>, e: PipeEvent<M>, s': Pipe<M>) {
    match e
    case Accept(m) =>
      && c.encode(m).Some?
      && s' == s.(accepted := s.accepted + [m], outbox := s.outbox + Frame(c, m))
    case Write(n) =>
      && 0 < n <= |s.outbox|
      && s' == s.(outbox := s.outbox[n..], wire := s.wire + s.outbox[..n])
    case Deliver(n) =>
      && 0 < n <= |s.wire| && c.decode(s.inbox).NeedMore?
      && s' == s.(wire := s.wire[n..], received := s.received + s.wire[..n], inbox := s.inbox + s.wire[..n])
    case Yield =>
      && c.decode(s.inbox).Item? && c.decode(s.inbox).consumed <= |s.inbox|
      && s' == s.(inbox := s.inbox[c.decode(s.inbox).consumed..], yielded := s.yielded + [c.decode(s.inbox).msg])
  }

  ghost predicate PipeRun<M>(c: Codec<M>, trace: seq<Pipe<M>>, events: seq<PipeEvent<M>>) {
    && |trace| == |events| + 1
    && trace[0] == NewPipe()
    && forall i | 0 <= i < |events| :: PipeNext(c, trace[i], events[i], trace[i + 1])
  }

  /** No byte is lost or invented, and the reader follows what was sent. */
  ghost predicate PipeInv<M(!new)>(c: Codec<M>, s: Pipe<M>) {
    && s.received + (s.wire + s.outbox) == Frames(c, s.accepted)
    && Follows(c, s.received, s.yielded, s.inbox)
  }

  lemma AcceptKept<M(!new)>(c: Codec<M>, s: Pipe<M>, m: M, s': Pipe<M>)
    requires PipeInv(c, s) && PipeNext(c, s, Accept(m), s')
    ensures PipeInv(c, s')
  {
    Regroup(s.received, s.wire, s.outbox);
    AcceptedBytes(c, s.received + s.wire, s.outbox, s.accepted, m);
    Regroup(s.received, s.wire, s'.outbox);
  }

  lemma DeliverKept<M(!new)>(c: Codec<M>, s: Pipe<M>, n: nat, s': Pipe<M>)
    requires PipeInv(c, s) && PipeNext(c, s, Deliver(n), s')
    ensures PipeInv(c, s')
  {
    assert (s.received + s.wire[..n]) + (s.wire[n..] + s.outbox) == s.received + (s.wire + s.outbox);
    FollowsMore(c, s.received, s.yielded, s.inbox, s.wire[..n]);
  }

  lemma PipeKept<M(!new)>(c: Codec<M>, s: Pipe<M>, e: PipeEvent<M>, s': Pipe<M>)
    requires PipeInv(c, s) && PipeNext(c, s, e, s')
    ensures PipeInv(c, s')
  {
    match e
    case Accept(m) => AcceptKept(c, s, m, s');
    case Write(n) => WrittenBytes(s.wire, s.outbox, n);
    case Deliver(n) => DeliverKept(c, s, n, s');
    case Yield => FollowsItem(c, s.received, s.yielded, s.inbox);
  }

  /** In every run, whatever the codec: bytes received, on the wire and in the writer's
      buffer are the frames accepted. */
  lemma {:induction false} PipeHolds<M(!new)>(c: Codec<M>, trace: seq<Pipe<M>>, events: seq<PipeEvent<M>>, i: nat)
    requires PipeRun(c, trace, events) && i < |trace|
    ensures PipeInv(c, trace[i])
  {
    if i > 0 {
      PipeHolds(c, trace, events, i - 1);
      assert PipeNext(c, trace[i - 1], events[i - 1], trace[i]);
      PipeKept(c, trace[i - 1], events[i - 1], trace[i]);
    } else {
      FollowsStart(c);
      assert Frames(c, trace[0].accepted) == [];
    }
  }

  /** For a stable codec, moreover, the reader is always where a one-shot parse of
      everything received would be, even over bytes nobody framed. */
  lemma {:induction false} PipeParses<M>(c: Codec<M>, trace: seq<Pipe<M>>, events: seq<PipeEvent<M>>, i: nat)
    requires Stable(c) && PipeRun(c, trace, events) && i < |trace|
    ensures Reads(c, trace[i].received, trace[i].yielded, trace[i].inbox)
  {
    if i > 0 {
      PipeParses(c, trace, events, i - 1);
      var s, e, s' := trace[i - 1], events[i - 1], trace[i];
      assert PipeNext(c, s, e, s');
      if e.Deliver? {
        ReadsMore(c, s.received, s.yielded, s.inbox, s.wire[..e.n]);
      } else if e.Yield? {
        ReadsItem(c, s.received, s.yielded, s.inbox);
      }
    }
  }

  /** What a pipe has delivered when the codec keeps the contract for every message
      accepted so far: a prefix of them, in order; no bytes are ever rejected; and a
      waiting reader holds an incomplete frame, or nothing exactly when all it received
      were whole frames. Once everything is written and read, everything has been
      yielded. */
  lemma PipeExact<M(!new)>(c: Codec<M>, s: Pipe<M>)
    requires PipeInv(c, s) && Contract(c, s.accepted)
    ensures OnTrack(c, s.received, s.yielded, s.inbox, s.accepted)
    ensures c.decode(s.inbox).NeedMore? && s.wire == [] && s.outbox == [] ==> s.yielded == s.accepted && s.inbox == []
  {
    assert s.received <= s.received + (s.wire + s.outbox);
    FollowingIsOnTrack(c, s.received, s.yielded, s.inbox, s.accepted);
    if s.wire == [] && s.outbox == [] {
      assert s.received + (s.wire + s.outbox) == s.received;
    }
  }

  /** In every state of every run of writer, wire and reader, over any codec and any
      messages for which it keeps the contract: `PipeExact`. */
  lemma FramingIsExact<M(!new)>(c: Codec<M>, trace: seq<Pipe<M>>, events: seq<PipeEvent<M>>, i: nat)
    requires PipeRun(c, trace, events) && i < |trace| && Contract(c, trace[i].accepted)
    ensures var s := trace[i];
            && s.yielded <= s.accepted
            && Frames(c, s.yielded) + (s.inbox + (s.wire + s.outbox)) == Frames(c, s.accepted)
            && !c.decode(s.inbox).Bad?
            && (c.decode(s.inbox).NeedMore? ==> (s.inbox == [] <==> AtBoundary(c, s.received, s.accepted)))
            && (c.decode(s.inbox).NeedMore? && s.wire == [] && s.outbox == [] ==> s.yielded == s.accepted)
  {
    PipeHolds(c, trace, events, i);
    PipeExact(c, trace[i]);
    Regroup(Frames(c, trace[i].yielded), trace[i].inbox, trace[i].wire + trace[i].outbox);
  }

  /** A stable codec needs no more than that the frames sent decode on their own. */
  lemma StableFramingIsExact<M(!new)>(c: Codec<M>, trace: seq<Pipe<M>>, events: seq<PipeEvent<M>>, i: nat)
    requires Stable(c) && PipeRun(c, trace, events) && i < |trace| && AllFrameable(c, trace[i].accepted)
    ensures OnTrack(c, trace[i].received, trace[i].yielded, trace[i].inbox, trace[i].accepted)
  {
    StableContract(c, trace[i].accepted);
    PipeHolds(c, trace, events, i);
    PipeExact(c, trace[i]);
  }
}
