/**
 The codec contract and what iterated decoding of a byte stream yields.

 A codec turns a message into a frame (or refuses it) and looks at the front of a
 buffer: it needs more bytes, finds an item of a given length, or rejects the
 bytes. Framing relies on a contract about the messages sent: a frame decodes to its
 message whatever follows it, and its proper prefixes need more bytes. A codec is
 stable if no answer on any bytes changes when more arrive; a stable codec meets the
 contract for every message whose frame decodes at all.
 */
module Codec {
  import opened Prelude

  type Bytes = seq<byte>

  datatype Decoded<+M> = NeedMore | Item(consumed: nat, msg: M) | Bad

  datatype Codec<!M> = Codec(encode: M -> Option<Bytes>, decode: Bytes -> Decoded<M>)

  /** An item found in `b` is not empty and lies inside `b`, and no answer on `b`
      changes when `ext` is appended. */
  ghost predicate Steady<M>(c: Codec<M>, b: Bytes, ext: Bytes) {
    && (c.decode(b).Item? ==> 0 < c.decode(b).consumed <= |b|)
    && (!c.decode(b).NeedMore? ==> c.decode(b + ext) == c.decode(b))
  }

  ghost predicate Stable<M>(c: Codec<M>) {
    && c.decode([]) == NeedMore
    && forall b: Bytes, ext: Bytes :: Steady(c, b, ext)
  }

  ghost function Frame<M>(c: Codec<M>, m: M): Bytes {
    if c.encode(m).Some? then c.encode(m).value else []
  }

  /** `m` has a frame, and the frame decodes to `m` and nothing else. */
  ghost predicate Frameable<M>(c: Codec<M>, m: M) {
    c.encode(m).Some? && c.decode(Frame(c, m)) == Item(|Frame(c, m)|, m)
  }

  ghost predicate AllFrameable<M>(c: Codec<M>, msgs: seq<M>) {
    forall i | 0 <= i < |msgs| :: Frameable(c, msgs[i])
  }

  /** The frame of `m` in front of `rest` decodes to `m`. */
  ghost predicate Decodes<M>(c: Codec<M>, m: M, rest: Bytes) {
    c.decode(Frame(c, m) + rest) == Item(|Frame(c, m)|, m)
  }

  /** The first `n` bytes of the frame of `m` need more. */
  ghost predicate Waits<M>(c: Codec<M>, m: M, n: nat)
    requires n < |Frame(c, m)|
  {
    c.decode(Frame(c, m)[..n]) == NeedMore
  }

  /** `m` has a non-empty frame that decodes to `m` whatever follows and not before it
      is complete. */
  ghost predicate Exact<M>(c: Codec<M>, m: M) {
    && c.encode(m).Some? && Frame(c, m) != []
    && (forall rest: Bytes :: Decodes(c, m, rest))
    && (forall n | 0 <= n < |Frame(c, m)| :: Waits(c, m, n))
  }

  /** The contract framing relies on, for the messages that are sent. */
  ghost predicate Contract<M>(c: Codec<M>, msgs: seq<M>) {
    c.decode([]) == NeedMore && forall i | 0 <= i < |msgs| :: Exact(c, msgs[i])
  }

  /** The one thing needed of a codec on arbitrary bytes: an item lies inside them. */
  ghost predicate FitsAt<M>(c: Codec<M>, b: Bytes) {
    c.decode(b).Item? ==> c.decode(b).consumed <= |b|
  }

  ghost predicate Fits<M>(c: Codec<M>) {
    forall b: Bytes :: FitsAt(c, b)
  }

  /** The bytes of a list of messages sent back to back. */
  ghost function Frames<M>(c: Codec<M>, msgs: seq<M>): Bytes {
    if msgs == [] then [] else Frame(c, msgs[0]) + Frames(c, msgs[1..])
  }

  /** Everything that can be taken off the front of `bytes`, the bytes left over,
      and whether decoding stopped at bytes the codec rejects. */
  datatype Parsed<+M> = Parsed(msgs: seq<M>, rest: Bytes, bad: bool)

  ghost function Parse<M>(c: Codec<M>, bytes: Bytes): Parsed<M>
    decreases |bytes|
  {
    match c.decode(bytes)
    case Item(n, m) =>
      if 0 < n <= |bytes| then
        var more := Parse(c, bytes[n..]);
        Parsed([m] + more.msgs, more.rest, more.bad)
      else Parsed([], bytes, true)
    case NeedMore => Parsed([], bytes, false)
    case Bad => Parsed([], bytes, true)
  }

  /** `p` with `msgs` taken off before it. */
  ghost function After<M>(msgs: seq<M>, p: Parsed<M>): Parsed<M> {
    Parsed(msgs + p.msgs, p.rest, p.bad)
  }

  lemma AfterAfter<M>(a: seq<M>, b: seq<M>, p: Parsed<M>)
    ensures After(a, After(b, p)) == After(a + b, p)
  {
  }

  /** `bytes` followed by what was left over parses on where it stopped. */
  lemma {:induction false} ParseResumes<M>(c: Codec<M>, bytes: Bytes, ext: Bytes)
    requires Stable(c)
    ensures var p := Parse(c, bytes);
            && (!p.bad ==> Parse(c, bytes + ext) == After(p.msgs, Parse(c, p.rest + ext)))
            && (p.bad ==> Parse(c, bytes + ext).msgs == p.msgs && Parse(c, bytes + ext).bad)
    decreases |bytes|
  {
    assert Steady(c, bytes, ext);
    match c.decode(bytes) {
      case Item(n, m) =>
        ParseResumes(c, bytes[n..], ext);
        assert (bytes + ext)[n..] == bytes[n..] + ext;
        var p := Parse(c, bytes[n..]);
        AfterAfter([m], p.msgs, Parse(c, p.rest + ext));
      case NeedMore =>
      case Bad =>
    }
  }

  lemma StableFits<M>(c: Codec<M>)
    requires Stable(c)
    ensures Fits(c)
  {
    forall b: Bytes ensures FitsAt(c, b) {
      assert Steady(c, b, []);
    }
  }

  /** Every proper prefix of a frame needs more bytes. */
  lemma PrefixNeedsMore<M>(c: Codec<M>, m: M, prefix: Bytes)
    requires Stable(c) && Frameable(c, m) && prefix < Frame(c, m)
    ensures c.decode(prefix) == NeedMore
  {
    var frame := Frame(c, m);
    assert frame == prefix + frame[|prefix|..];
    assert Steady(c, prefix, frame[|prefix|..]);
  }

  /** For a stable codec the contract comes down to each frame decoding on its own. */
  lemma StableExactIff<M>(c: Codec<M>, m: M)
    requires Stable(c)
    ensures Exact(c, m) <==> Frameable(c, m)
  {
    var frame := Frame(c, m);
    if Frameable(c, m) {
      forall rest: Bytes ensures Decodes(c, m, rest) {
        assert Steady(c, frame, rest);
      }
      forall n | 0 <= n < |frame| ensures Waits(c, m, n) {
        PrefixNeedsMore(c, m, frame[..n]);
      }
      assert Steady(c, frame, []);
    }
    if Exact(c, m) {
      assert Decodes(c, m, []);
      assert frame + [] == frame;
    }
  }

  lemma StableContract<M>(c: Codec<M>, msgs: seq<M>)
    requires Stable(c) && AllFrameable(c, msgs)
    ensures Contract(c, msgs)
  {
    forall i | 0 <= i < |msgs| ensures Exact(c, msgs[i]) {
      StableExactIff(c, msgs[i]);
    }
  }

  lemma {:induction false} FramesConcat<M>(c: Codec<M>, a: seq<M>, b: seq<M>)
    ensures Frames(c, a + b) == Frames(c, a) + Frames(c, b)
  {
    if a == [] {
      assert a + b == b;
    } else {
      assert (a + b)[1..] == a[1..] + b;
      FramesConcat(c, a[1..], b);
    }
  }

  /** A frame at the front is taken off whole, whatever follows it. */
  lemma FrameParse<M>(c: Codec<M>, m: M, tail: Bytes)
    requires Exact(c, m)
    ensures Parse(c, Frame(c, m) + tail) == After([m], Parse(c, tail))
  {
    assert Decodes(c, m, tail);
    assert (Frame(c, m) + tail)[|Frame(c, m)|..] == tail;
  }

  /** Frames sent back to back come out as the messages, whatever follows them. */
  lemma {:induction false} FramesParse<M>(c: Codec<M>, msgs: seq<M>, tail: Bytes)
    requires Contract(c, msgs)
    ensures Parse(c, Frames(c, msgs) + tail) == After(msgs, Parse(c, tail))
  {
    if msgs == [] {
      assert Frames(c, msgs) + tail == tail;
    } else {
      FramesParse(c, msgs[1..], tail);
      FrameParse(c, msgs[0], Frames(c, msgs[1..]) + tail);
      assert Frames(c, msgs) + tail == Frame(c, msgs[0]) + (Frames(c, msgs[1..]) + tail);
      AfterAfter([msgs[0]], msgs[1..], Parse(c, tail));
      assert msgs == [msgs[0]] + msgs[1..];
    }
  }

  /** `p` is what `part`, the front of the stream of `msgs`, must parse to: the
      messages whose frames are complete and a proper prefix of the next frame. */
  ghost predicate CompleteFrames<M>(c: Codec<M>, msgs: seq<M>, part: Bytes, p: Parsed<M>) {
    && !p.bad
    && p.msgs <= msgs
    && part == Frames(c, p.msgs) + p.rest
    && (p.rest == [] || (|p.msgs| < |msgs| && p.rest < Frame(c, msgs[|p.msgs|])))
  }

  lemma OneMoreFrame<M>(c: Codec<M>, msgs: seq<M>, part: Bytes, q: Parsed<M>)
    requires msgs != [] && CompleteFrames(c, msgs[1..], part, q)
    ensures CompleteFrames(c, msgs, Frame(c, msgs[0]) + part, After([msgs[0]], q))
  {
  }

  /** Any prefix of a stream of frames parses to the complete frames in it. */
  lemma {:induction false} PrefixParse<M>(c: Codec<M>, msgs: seq<M>, part: Bytes)
    requires Contract(c, msgs) && part <= Frames(c, msgs)
    ensures CompleteFrames(c, msgs, part, Parse(c, part))
  {
    if msgs == [] {
      assert part == [];
    } else if |part| < |Frame(c, msgs[0])| {
      assert part == Frame(c, msgs[0])[..|part|];
      assert Waits(c, msgs[0], |part|);
      assert Frames(c, []) + part == part;
    } else {
      var more := part[|Frame(c, msgs[0])|..];
      assert part == Frame(c, msgs[0]) + more;
      PrefixParse(c, msgs[1..], more);
      FrameParse(c, msgs[0], more);
      OneMoreFrame(c, msgs, more, Parse(c, more));
    }
  }
}
